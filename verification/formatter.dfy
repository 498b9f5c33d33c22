/** The result formatting of `FontAwesome`: `item_hash`, `item_xml`,
    `to_alfred`, and the helpers `.argv`, `.css_class_name` and `.url`. */
module Formatter {
  import opened Wrappers
  import opened Text
  import opened Icons

  const CssPrefix := "fa-"
  const UrlPrefix := "http://fontawesome.io/icon/"
  const SubtitlePrefix := "Paste class name: "
  const IconDirectory := "./icons/"
  const ArgSeparator := "|||"
  /** The XML declaration of section 2.8 of the W3C XML 1.0 Recommendation. */
  const XmlDeclaration := "<?xml version='1.0'?>"

  /** `.css_class_name(id)`. */
  function CssClassName(id: string): (r: string)
    ensures StripPrefix(r, CssPrefix) == Some(id)
  {
    StripPrefixOfConcat(CssPrefix, id);
    CssPrefix + id
  }

  /** `.url(id)`: the icon's page on the Font Awesome site. */
  function Url(id: string): (r: string)
    ensures StripPrefix(r, UrlPrefix) == Some(id + "/")
  {
    StripPrefixOfConcat(UrlPrefix, id + "/");
    assert UrlPrefix + id + "/" == UrlPrefix + (id + "/");
    UrlPrefix + id + "/"
  }

  /** The `:icon` entry of an item hash; `kind` is the `:type` key. */
  datatype ItemIcon = ItemIcon(kind: string, name: string)

  /** The six keys of the hash `#item_hash` returns. */
  datatype Item = Item(
    uid: string,
    title: string,
    subtitle: string,
    arg: string,
    icon: ItemIcon,
    valid: string)

  /** `#item_hash(icon)`: its properties are stated by ItemHashMeaning and
      ArgvItemHashRoundTrip. */
  function ItemHash(icon: Icon): (r: Item)
    ensures r.uid == icon.id && r.title == icon.id
    ensures r.valid == "yes" && r.icon.kind == "default"
  {
    Item(
      icon.id,
      icon.id,
      SubtitlePrefix + CssClassName(icon.id),
      icon.id + ArgSeparator + icon.unicode,
      ItemIcon("default", IconDirectory + CssClassName(icon.id) + ".png"),
      "yes")
  }

  /** What the six values of an item hash are, in terms of the icon: the id
      twice, the class name behind the subtitle's prefix, the class name's
      image under the icon directory, and the `yes` flag. */
  lemma ItemHashMeaning(icon: Icon)
    ensures ItemHash(icon).uid == icon.id && ItemHash(icon).title == icon.id
    ensures ItemHash(icon).valid == "yes" && ItemHash(icon).icon.kind == "default"
    ensures StripPrefix(ItemHash(icon).subtitle, SubtitlePrefix) == Some(CssClassName(icon.id))
    ensures StripPrefix(ItemHash(icon).icon.name, IconDirectory) == Some(CssClassName(icon.id) + ".png")
  {
    StripPrefixOfConcat(SubtitlePrefix, CssClassName(icon.id));
    StripPrefixOfConcat(IconDirectory, CssClassName(icon.id) + ".png");
    assert IconDirectory + CssClassName(icon.id) + ".png"
        == IconDirectory + (CssClassName(icon.id) + ".png");
  }

  /** The fields of the struct `.argv` returns; a missing field is Ruby's nil. */
  datatype ArgvFields = ArgvFields(iconId: Option<string>, iconUnicode: Option<string>)

  function FieldAt(parts: seq<string>, i: nat): Option<string> {
    if i < |parts| then Some(parts[i]) else None
  }

  /** `.argv(args)`: splits the first argument on `|||`; None when there is no
      argument at all. */
  function Argv(args: seq<string>): (r: Option<ArgvFields>)
    ensures r.None? <==> args == []
    ensures r.Some? && r.value.iconId.Some? ==> !HasSubstring(r.value.iconId.value, ArgSeparator)
    ensures r.Some? && r.value.iconUnicode.Some? ==>
      r.value.iconId.Some? && !HasSubstring(r.value.iconUnicode.value, ArgSeparator)
  {
    if args == [] then None
    else
      var parts := Split(args[0], ArgSeparator);
      Some(ArgvFields(FieldAt(parts, 0), FieldAt(parts, 1)))
  }

  /** `.argv` recovers the id and the code point from an item's `:arg`. */
  lemma ArgvItemHashRoundTrip(icon: Icon)
    requires '|' !in icon.id && '|' !in icon.unicode && icon.unicode != []
    ensures Argv([ItemHash(icon).arg]) == Some(ArgvFields(Some(icon.id), Some(icon.unicode)))
  {
    SplitJoined(icon.id, ArgSeparator, icon.unicode);
  }

  // ---------------------------------------------------------------------------
  // XML

  /** The `uid` attribute: the Unix time of the run, then the item's uid. */
  function Uid(h: Item, timestamp: int): string {
    IntToString(timestamp) + "-" + h.uid
  }

  /** The start tag of an `<item>`, with its `arg` and `uid` attributes. */
  function StartTag(arg: string, uid: string): string {
    "<item arg=\"" + arg + "\" uid=\"" + uid + "\">"
  }

  /** An element holding only text. */
  function Element(name: string, text: string): string {
    "<" + name + ">" + text + "</" + name + ">"
  }

  /** The lines of one `<item>` element. */
  function ItemLines(h: Item, timestamp: int): seq<string> {
    [ StartTag(h.arg, Uid(h, timestamp)),
      Element("title", h.title),
      Element("subtitle", h.subtitle),
      Element("icon", h.icon.name),
      "</item>" ]
  }

  /** `#item_xml(item_hash)`: one line per element, each ending in a line
      break; without its line breaks it is the compact item of the document. */
  function ItemXml(h: Item, timestamp: int): (r: string)
    ensures NoBreaks(h) ==> RemoveNewlines(r) == CompactItem(h, timestamp)
  {
    ItemLinesUnbroken(h, timestamp);
    Lines(ItemLines(h, timestamp))
  }

  /** One item as it appears in the document `#to_alfred` writes: the same
      element without line breaks. */
  /** `#item_xml` is five lines, each ending in a line break: the start tag,
      the three elements and the end tag. */
  lemma ItemXmlLines(h: Item, timestamp: int)
    requires NoBreaks(h)
    ensures SplitFields(ItemXml(h, timestamp), "\n") == ItemLines(h, timestamp) + [""]
  {
    var ls := ItemLines(h, timestamp);
    assert '\n' !in Uid(h, timestamp);
    assert '\n' !in ls[0] && '\n' !in ls[1] && '\n' !in ls[2];
    assert '\n' !in ls[3] && '\n' !in ls[4];
    LinesSplitFields(ls);
  }

  function CompactItem(h: Item, timestamp: int): string {
    Concat(ItemLines(h, timestamp))
  }

  function ItemsXml(icons: seq<Icon>, timestamp: int): string {
    if icons == [] then "" else CompactItem(ItemHash(icons[0]), timestamp) + ItemsXml(icons[1..], timestamp)
  }

  /** What `#to_alfred` writes to standard output for the selected `icons`
      (`puts` adds the final line break): the XML declaration, then the
      `<items>` element holding the compact items. */
  function AlfredOutput(icons: seq<Icon>, timestamp: int): (r: string)
    ensures StripPrefix(r, XmlDeclaration + "<items>") == Some(ItemsXml(icons, timestamp) + "</items>\n")
  {
    var body := ItemsXml(icons, timestamp) + "</items>\n";
    StripPrefixOfConcat(XmlDeclaration + "<items>", body);
    assert XmlDeclaration + "<items>" + ItemsXml(icons, timestamp) + "</items>\n"
        == (XmlDeclaration + "<items>") + body;
    XmlDeclaration + "<items>" + ItemsXml(icons, timestamp) + "</items>\n"
  }

  /** No field of the item holds a line break. */
  predicate NoBreaks(h: Item) {
    '\n' !in h.arg && '\n' !in h.uid && '\n' !in h.title && '\n' !in h.subtitle && '\n' !in h.icon.name
  }

  lemma ItemLinesUnbroken(h: Item, timestamp: int)
    ensures NoBreaks(h) ==> RemoveNewlines(Lines(ItemLines(h, timestamp))) == Concat(ItemLines(h, timestamp))
  {
    if NoBreaks(h) {
      var ls := ItemLines(h, timestamp);
      assert '\n' !in Uid(h, timestamp);
      assert '\n' !in ls[0] && '\n' !in ls[1] && '\n' !in ls[2];
      assert '\n' !in ls[3] && '\n' !in ls[4];
      RemoveNewlinesLines(ls);
    }
  }

  /** The compact items of the document are the lines of `#item_xml` with
      their line breaks taken out. */
  lemma ItemXmlCompact(icon: Icon, timestamp: int)
    requires CatalogIcon(icon)
    ensures RemoveNewlines(ItemXml(ItemHash(icon), timestamp)) == CompactItem(ItemHash(icon), timestamp)
  {
    var h := ItemHash(icon);
    assert h.subtitle == SubtitlePrefix + CssPrefix + icon.id;
    assert h.icon.name == IconDirectory + CssPrefix + icon.id + ".png";
    assert NoBreaks(h);
  }

  // ---------------------------------------------------------------------------
  // Reading the document back

  /** The attributes and texts of one `<item>`. */
  datatype ParsedItem = ParsedItem(arg: string, uid: string, title: string, subtitle: string, icon: string)

  /** What the document says about one item. */
  function Rendered(h: Item, timestamp: int): ParsedItem {
    ParsedItem(h.arg, Uid(h, timestamp), h.title, h.subtitle, h.icon.name)
  }

  function RenderedItems(icons: seq<Icon>, timestamp: int): seq<ParsedItem> {
    seq(|icons|, i requires 0 <= i < |icons| => Rendered(ItemHash(icons[i]), timestamp))
  }

  /** Reads a start tag `<item arg="..." uid="...">` at the start of `s`. */
  function ParseStartTag(s: string): (r: Option<(string, string, string)>)
    ensures r.Some? ==> |r.value.2| < |s|
  {
    var s1 :- StripPrefix(s, "<item arg=\"");
    var (arg, s2) := TakeUntil(s1, '"');
    var s3 :- StripPrefix(s2, "\" uid=\"");
    var (uid, s4) := TakeUntil(s3, '"');
    var s5 :- StripPrefix(s4, "\">");
    Some((arg, uid, s5))
  }

  /** Reads a text-only element `<name>...</name>` at the start of `s`. */
  function ParseElement(s: string, name: string): (r: Option<(string, string)>)
    ensures r.Some? ==> |r.value.1| < |s|
  {
    var s1 :- StripPrefix(s, "<" + name + ">");
    var (text, s2) := TakeUntil(s1, '<');
    var s3 :- StripPrefix(s2, "</" + name + ">");
    Some((text, s3))
  }

  /** Reads one compact `<item>` element at the start of `s`. */
  function ParseItem(s: string): (r: Option<(ParsedItem, string)>)
    ensures r.Some? ==> |r.value.1| < |s|
  {
    var start :- ParseStartTag(s);
    var title :- ParseElement(start.2, "title");
    var subtitle :- ParseElement(title.1, "subtitle");
    var icon :- ParseElement(subtitle.1, "icon");
    var rest :- StripPrefix(icon.1, "</item>");
    Some((ParsedItem(start.0, start.1, title.0, subtitle.0, icon.0), rest))
  }

  /** Reads items up to the closing `</items>` and the final line break. */
  function ParseItems(s: string): Option<seq<ParsedItem>>
    decreases |s|
  {
    if s == "</items>\n" then Some([])
    else
      var p :- ParseItem(s);
      var rest :- ParseItems(p.1);
      Some([p.0] + rest)
  }

  /** Reads a whole document as `#to_alfred` writes it. */
  function ParseAlfred(s: string): Option<seq<ParsedItem>> {
    var body :- StripPrefix(s, XmlDeclaration + "<items>");
    ParseItems(body)
  }

  lemma ConcatFive(ls: seq<string>)
    requires |ls| == 5
    ensures Concat(ls) == ls[0] + (ls[1] + (ls[2] + (ls[3] + ls[4])))
  {
    assert ls[1..][1..] == ls[2..] && ls[2..][1..] == ls[3..];
    assert ls[3..][1..] == ls[4..] && ls[4..][1..] == [];
    assert Concat(ls[4..]) == ls[4];
    assert Concat(ls[3..]) == ls[3] + ls[4];
    assert Concat(ls[2..]) == ls[2] + (ls[3] + ls[4]);
    assert Concat(ls[1..]) == ls[1] + (ls[2] + (ls[3] + ls[4]));
  }

  /** The fields of an item need no escaping where they are written. */
  predicate Printable(h: Item) {
    '"' !in h.arg && '"' !in h.uid && '<' !in h.title && '<' !in h.subtitle && '<' !in h.icon.name
  }

  /** Unfolds ItemHash, for the proofs below. */
  lemma ItemHashFields(icon: Icon)
    ensures ItemHash(icon) == Item(icon.id, icon.id, SubtitlePrefix + CssPrefix + icon.id,
      icon.id + ArgSeparator + icon.unicode, ItemIcon("default", IconDirectory + CssPrefix + icon.id + ".png"), "yes")
  {
  }

  lemma CatalogItemPrintable(icon: Icon)
    requires CatalogIcon(icon)
    ensures Printable(ItemHash(icon))
  {
    ItemHashFields(icon);
    var id := icon.id;
    assert '"' !in id + ArgSeparator + icon.unicode;
    assert '<' !in SubtitlePrefix + CssPrefix + id;
    assert '<' !in IconDirectory + CssPrefix + id + ".png";
  }

  lemma ParseStartTagRoundTrip(arg: string, uid: string, rest: string)
    requires '"' !in arg && '"' !in uid
    ensures ParseStartTag(StartTag(arg, uid) + rest) == Some((arg, uid, rest))
  {
    var t4 := "\">" + rest;
    var t3 := uid + t4;
    var t2 := "\" uid=\"" + t3;
    var t1 := arg + t2;
    assert StartTag(arg, uid) + rest == "<item arg=\"" + t1;
    StripPrefixOfConcat("<item arg=\"", t1);
    TakeUntilConcat(arg, t2, '"');
    StripPrefixOfConcat("\" uid=\"", t3);
    TakeUntilConcat(uid, t4, '"');
    StripPrefixOfConcat("\">", rest);
  }

  lemma ParseElementRoundTrip(name: string, text: string, rest: string)
    requires '<' !in text
    ensures ParseElement(Element(name, text) + rest, name) == Some((text, rest))
  {
    var close := "</" + name + ">";
    var t2 := close + rest;
    var t1 := text + t2;
    assert Element(name, text) + rest == ("<" + name + ">") + t1;
    StripPrefixOfConcat("<" + name + ">", t1);
    TakeUntilConcat(text, t2, '<');
    StripPrefixOfConcat(close, rest);
  }

  lemma CompactItemShape(h: Item, timestamp: int, rest: string)
    ensures CompactItem(h, timestamp) + rest ==
      StartTag(h.arg, Uid(h, timestamp)) + (Element("title", h.title) +
        (Element("subtitle", h.subtitle) + (Element("icon", h.icon.name) + ("</item>" + rest))))
  {
    ConcatFive(ItemLines(h, timestamp));
  }

  lemma StartTagPrefix(arg: string, uid: string, rest: string)
    ensures StartsWith(StartTag(arg, uid) + rest, "<item arg=\"")
  {
    var t0 := arg + ("\" uid=\"" + (uid + ("\">" + rest)));
    assert StartTag(arg, uid) + rest == "<item arg=\"" + t0;
    StripPrefixOfConcat("<item arg=\"", t0);
  }

  /** Reading a compact item back gives its attributes and texts, and leaves
      what follows it. */
  lemma ParseItemRoundTrip(h: Item, timestamp: int, rest: string)
    requires Printable(h)
    ensures ParseItem(CompactItem(h, timestamp) + rest) == Some((Rendered(h, timestamp), rest))
    ensures StartsWith(CompactItem(h, timestamp) + rest, "<item arg=\"")
  {
    var uid := Uid(h, timestamp);
    assert '"' !in uid;
    var t3 := Element("icon", h.icon.name) + ("</item>" + rest);
    var t2 := Element("subtitle", h.subtitle) + t3;
    var t1 := Element("title", h.title) + t2;
    CompactItemShape(h, timestamp, rest);
    ParseStartTagRoundTrip(h.arg, uid, t1);
    ParseElementRoundTrip("title", h.title, t2);
    ParseElementRoundTrip("subtitle", h.subtitle, t3);
    ParseElementRoundTrip("icon", h.icon.name, "</item>" + rest);
    StripPrefixOfConcat("</item>", rest);
    StartTagPrefix(h.arg, uid, t1);
  }

  lemma NotClosingTag(s: string)
    requires StartsWith(s, "<item arg=\"")
    ensures s != "</items>\n"
  {
    assert s[1] == "<item arg=\""[1];
  }

  lemma RenderedItemsCons(icons: seq<Icon>, timestamp: int)
    requires icons != []
    ensures RenderedItems(icons, timestamp)
         == [Rendered(ItemHash(icons[0]), timestamp)] + RenderedItems(icons[1..], timestamp)
  {
  }

  /** Reading the items back gives one entry per icon, in order. */
  lemma {:induction false} ParseItemsRoundTrip(icons: seq<Icon>, timestamp: int)
    requires forall i :: 0 <= i < |icons| ==> CatalogIcon(icons[i])
    ensures ParseItems(ItemsXml(icons, timestamp) + "</items>\n") == Some(RenderedItems(icons, timestamp))
  {
    if icons == [] {
      assert ItemsXml(icons, timestamp) + "</items>\n" == "</items>\n";
      assert RenderedItems(icons, timestamp) == [];
    } else {
      var h := ItemHash(icons[0]);
      var tail := ItemsXml(icons[1..], timestamp) + "</items>\n";
      var s := ItemsXml(icons, timestamp) + "</items>\n";
      assert s == CompactItem(h, timestamp) + tail;
      CatalogItemPrintable(icons[0]);
      ParseItemRoundTrip(h, timestamp, tail);
      NotClosingTag(s);
      ParseItemsRoundTrip(icons[1..], timestamp);
      RenderedItemsCons(icons, timestamp);
    }
  }

  /** The document `#to_alfred` writes holds exactly one `<item>` per selected
      icon, in selection order, whose `arg` is `id|||unicode`, whose `uid` is
      the timestamp and the id, and whose title, subtitle and icon path are
      those of the item hash. */
  lemma AlfredOutputRoundTrip(icons: seq<Icon>, timestamp: int)
    requires forall i :: 0 <= i < |icons| ==> CatalogIcon(icons[i])
    ensures ParseAlfred(AlfredOutput(icons, timestamp)) == Some(RenderedItems(icons, timestamp))
    ensures |RenderedItems(icons, timestamp)| == |icons|
    ensures forall i :: 0 <= i < |icons| ==>
      RenderedItems(icons, timestamp)[i].arg == icons[i].id + ArgSeparator + icons[i].unicode &&
      RenderedItems(icons, timestamp)[i].uid == IntToString(timestamp) + "-" + icons[i].id &&
      RenderedItems(icons, timestamp)[i].title == icons[i].id &&
      RenderedItems(icons, timestamp)[i].icon == IconDirectory + CssClassName(icons[i].id) + ".png"
  {
    var body := ItemsXml(icons, timestamp) + "</items>\n";
    assert AlfredOutput(icons, timestamp) == (XmlDeclaration + "<items>") + body;
    StripPrefixOfConcat(XmlDeclaration + "<items>", body);
    ParseItemsRoundTrip(icons, timestamp);
  }
}
