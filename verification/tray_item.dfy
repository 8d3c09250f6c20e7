/** The pure decisions of `SystemTrayItem`: which icon `__sync_icon`
    shows, what `tooltip` returns, and which property a `New*` signal
    notifies. The D-Bus property values are inputs. */
module TrayItem {
  import opened Wrappers
  import Text
  import opened TrayPixmap

  /** The item's icon: a theme icon name or a pixbuf. */
  datatype Icon = Named(name: string) | Image(pixbuf: Pixbuf)

  /** What `__sync_icon` does: the icon it stores, and the theme search path
      it adds, if any. */
  datatype IconUpdate = IconUpdate(icon: Icon, addedSearchPath: Option<string>)

  /** The D-Bus properties `__sync_icon` reads; `None` is a property the
      proxy does not have. */
  datatype IconProps = IconProps(
    iconName: Option<string>,
    attentionIconName: Option<string>,
    iconPixmap: Option<seq<Pixmap>>,
    attentionIconPixmap: Option<seq<Pixmap>>,
    iconThemePath: Option<string>)

  /** The four icon sources in the order they are tried. */
  datatype Source = IconName | AttentionIconName | IconPixmap | AttentionIconPixmap

  const Priority: seq<Source> := [IconName, AttentionIconName, IconPixmap, AttentionIconPixmap]

  /** The icon used when no source is set. */
  const Missing: string := "image-missing"

  /** Python truthiness of a name: present and non-empty. */
  predicate NameSet(o: Option<string>) {
    o.Some? && o.value != ""
  }

  /** Python truthiness of a pixmap array: present and non-empty. */
  predicate PixmapSet(o: Option<seq<Pixmap>>) {
    o.Some? && |o.value| > 0
  }

  predicate IsSet(p: IconProps, src: Source) {
    match src
    case IconName => NameSet(p.iconName)
    case AttentionIconName => NameSet(p.attentionIconName)
    case IconPixmap => PixmapSet(p.iconPixmap)
    case AttentionIconPixmap => PixmapSet(p.attentionIconPixmap)
  }

  /** The first source of `srcs` that is set. */
  function FirstSet(p: IconProps, srcs: seq<Source>): (r: Option<Source>)
    ensures r.Some? ==> r.value in srcs && IsSet(p, r.value)
    ensures r.None? ==> forall s :: s in srcs ==> !IsSet(p, s)
  {
    if srcs == [] then None
    else if IsSet(p, srcs[0]) then Some(srcs[0])
    else FirstSet(p, srcs[1..])
  }

  /** The first set source, spelled out for the four sources. */
  lemma FirstSetInPriority(p: IconProps)
    ensures FirstSet(p, Priority) ==
              if NameSet(p.iconName) then Some(IconName)
              else if NameSet(p.attentionIconName) then Some(AttentionIconName)
              else if PixmapSet(p.iconPixmap) then Some(IconPixmap)
              else if PixmapSet(p.attentionIconPixmap) then Some(AttentionIconPixmap)
              else None
  {
    var s1 := Priority[1..];
    var s2 := s1[1..];
    var s3 := s2[1..];
    assert s1 == [AttentionIconName, IconPixmap, AttentionIconPixmap];
    assert s2 == [IconPixmap, AttentionIconPixmap];
    assert s3 == [AttentionIconPixmap];
    assert s3[1..] == [];
    assert FirstSet(p, s3) == if PixmapSet(p.attentionIconPixmap) then Some(AttentionIconPixmap) else None;
    assert FirstSet(p, s2) == if PixmapSet(p.iconPixmap) then Some(IconPixmap) else FirstSet(p, s3);
    assert FirstSet(p, s1) == if NameSet(p.attentionIconName) then Some(AttentionIconName) else FirstSet(p, s2);
  }

  /** `__sync_icon`, given whether the icon theme has a name. Building a
      pixbuf can raise `IndexError` (see `TrayPixmap.GetPixbuf`). */
  function SyncIcon(p: IconProps, hasIcon: string -> bool): (r: Result<IconUpdate, IndexError>)
    ensures FirstSet(p, Priority) == None ==> r == Success(IconUpdate(Named(Missing), None))
    ensures FirstSet(p, Priority) == Some(IconName) ==> r.Success? && r.value.icon == Named(p.iconName.value)
    ensures FirstSet(p, Priority) == Some(AttentionIconName) ==>
              r == Success(IconUpdate(Named(p.attentionIconName.value), None))
    ensures FirstSet(p, Priority) == Some(IconPixmap) ==>
              r == (match GetPixbuf(p.iconPixmap.value)
                    case Success(pb) => Success(IconUpdate(Image(pb), None))
                    case Failure(e) => Failure(e))
    ensures FirstSet(p, Priority) == Some(AttentionIconPixmap) ==>
              r == (match GetPixbuf(p.attentionIconPixmap.value)
                    case Success(pb) => Success(IconUpdate(Image(pb), None))
                    case Failure(e) => Failure(e))
    ensures r.Success? && r.value.addedSearchPath.Some? <==>
              NameSet(p.iconName) && !hasIcon(p.iconName.value) && p.iconThemePath.Some?
    ensures r.Success? && r.value.addedSearchPath.Some? ==> r.value.addedSearchPath == p.iconThemePath
  {
    FirstSetInPriority(p);
    if NameSet(p.iconName) then
      var path := if !hasIcon(p.iconName.value) && p.iconThemePath.Some? then p.iconThemePath else None;
      Success(IconUpdate(Named(p.iconName.value), path))
    else if NameSet(p.attentionIconName) then
      Success(IconUpdate(Named(p.attentionIconName.value), None))
    else if PixmapSet(p.iconPixmap) then
      match GetPixbuf(p.iconPixmap.value)
      case Success(pb) => Success(IconUpdate(Image(pb), None))
      case Failure(e) => Failure(e)
    else if PixmapSet(p.attentionIconPixmap) then
      match GetPixbuf(p.attentionIconPixmap.value)
      case Success(pb) => Success(IconUpdate(Image(pb), None))
      case Failure(e) => Failure(e)
    else
      Success(IconUpdate(Named(Missing), None))
  }

  /** The `ToolTip` property, D-Bus `(sa(iiay)ss)`: icon name, icon pixmaps,
      title, description. */
  datatype ToolTip = ToolTip(iconName: string, iconPixmap: seq<Pixmap>, title: string, description: string)

  /** The `tooltip` property: the item's `title` when the D-Bus tooltip is
      missing, otherwise the tooltip's title (its third field), even when
      that is empty. */
  function Tooltip(title: Option<string>, tip: Option<ToolTip>): (r: Option<string>)
    ensures tip.None? ==> r == title
    ensures tip.Some? ==> r == Some(tip.value.title)
  {
    if tip.None? then title else Some(tip.value.title)
  }

  /** The property notified for a `NewTitle`, `NewToolTip` or `NewStatus`
      signal: `signal_name.replace("New", "").lower()`. */
  function SignalProperty(signal: string): (r: string)
    ensures |r| <= |signal|
    ensures forall i :: 0 <= i < |r| ==> !Text.IsUpper(r[i])
  {
    Text.Lower(Text.RemoveAll(signal, "New"))
  }

  /** A signal named `"New"` followed by a name free of `"New"` notifies
      that name in lower case. */
  lemma SignalPropertyOfNew(rest: string)
    requires !Text.Occurs("New", rest)
    ensures SignalProperty("New" + rest) == Text.Lower(rest)
  {
    assert ("New" + rest)[..3] == "New";
    assert ("New" + rest)[3..] == rest;
    Text.RemoveAllAbsent(rest, "New");
  }

  /** `NewTitle` notifies `title`. */
  lemma TitleSignal()
    ensures SignalProperty("NewTitle") == "title"
  {
    assert Text.Lower("Title") == "title" by {
      var l := Text.Lower("Title");
      assert l[0] == 't' && l[1] == 'i' && l[2] == 't' && l[3] == 'l' && l[4] == 'e';
      assert l == ['t', 'i', 't', 'l', 'e'];
    }
    assert "NewTitle" == "New" + "Title";
    assert SignalProperty("NewTitle") == Text.Lower("Title") by {
      Text.AbsentFirstChar("New", "Title");
      SignalPropertyOfNew("Title");
    }
  }

  /** `NewToolTip` notifies `tooltip`. */
  lemma ToolTipSignal()
    ensures SignalProperty("NewToolTip") == "tooltip"
  {
    assert Text.Lower("ToolTip") == "tooltip" by {
      var l := Text.Lower("ToolTip");
      assert l[0] == 't' && l[1] == 'o' && l[2] == 'o' && l[3] == 'l' && l[4] == 't' && l[5] == 'i' && l[6] == 'p';
      assert l == ['t', 'o', 'o', 'l', 't', 'i', 'p'];
    }
    assert "NewToolTip" == "New" + "ToolTip";
    assert SignalProperty("NewToolTip") == Text.Lower("ToolTip") by {
      Text.AbsentFirstChar("New", "ToolTip");
      SignalPropertyOfNew("ToolTip");
    }
  }

  /** `NewStatus` notifies `status`. */
  lemma StatusSignal()
    ensures SignalProperty("NewStatus") == "status"
  {
    assert Text.Lower("Status") == "status" by {
      var l := Text.Lower("Status");
      assert l[0] == 's' && l[1] == 't' && l[2] == 'a' && l[3] == 't' && l[4] == 'u' && l[5] == 's';
      assert l == ['s', 't', 'a', 't', 'u', 's'];
    }
    assert "NewStatus" == "New" + "Status";
    assert SignalProperty("NewStatus") == Text.Lower("Status") by {
      Text.AbsentFirstChar("New", "Status");
      SignalPropertyOfNew("Status");
    }
  }
}
