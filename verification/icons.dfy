/** `FontAwesome::Icon` and the icon catalog. The embedded data is a parameter:
    the ids in catalog order, the id -> unicode table and the alias -> canonical
    id table. */
module Icons {
  import opened Wrappers

  /** An icon as constructed: the id it was asked for and its code point. */
  datatype Icon = Icon(id: string, unicode: string)

  datatype IconTable = IconTable(
    ids: seq<string>,
    unicodes: map<string, string>,
    aliases: map<string, string>)

  /** The id resolves directly, or through the alias table to a known id. */
  predicate Resolvable(t: IconTable, id: string) {
    id in t.unicodes || (id in t.aliases && t.aliases[id] in t.unicodes)
  }

  /** Direct lookup first; otherwise the canonical id's code point. The
      result is always one of the table's code points. */
  function DetectUnicode(t: IconTable, id: string): (r: Option<string>)
    ensures r.Some? <==> Resolvable(t, id)
    ensures id in t.unicodes ==> r == Some(t.unicodes[id])
    ensures r.Some? ==> r.value in t.unicodes.Values
  {
    if id in t.unicodes then Some(t.unicodes[id])
    else if id in t.aliases && t.aliases[id] in t.unicodes then Some(t.unicodes[t.aliases[id]])
    else None
  }

  /** `Icon.new(id)`: None when no code point can be found for `id`. */
  function NewIcon(t: IconTable, id: string): (r: Option<Icon>)
    ensures r.Some? <==> Resolvable(t, id)
    ensures r.Some? ==> r.value.id == id
  {
    match DetectUnicode(t, id)
    case Some(u) => Some(Icon(id, u))
    case None => None
  }

  /** A directly known id gets its own code point. */
  lemma NewIconFromId(t: IconTable, id: string)
    requires id in t.unicodes
    ensures NewIcon(t, id) == Some(Icon(id, t.unicodes[id]))
  {
  }

  /** An alias keeps its own id but shares the code point of its canonical
      icon (`star-half-empty` and `star-half-o`). */
  lemma NewIconFromAlias(t: IconTable, alias: string)
    requires alias !in t.unicodes && alias in t.aliases && t.aliases[alias] in t.unicodes
    ensures NewIcon(t, alias).Some? && NewIcon(t, t.aliases[alias]).Some?
    ensures NewIcon(t, alias).value.id == alias
    ensures NewIcon(t, alias).value.unicode == NewIcon(t, t.aliases[alias]).value.unicode
  {
  }

  /** Builds the icons for `ids` in order; None when one of them does not resolve. */
  function LoadIcons(t: IconTable, ids: seq<string>): (r: Option<seq<Icon>>)
    ensures r.Some? <==> forall i :: 0 <= i < |ids| ==> Resolvable(t, ids[i])
    ensures r.Some? ==> |r.value| == |ids|
    ensures r.Some? ==> forall i :: 0 <= i < |ids| ==>
      Some(r.value[i]) == NewIcon(t, ids[i]) && r.value[i].id == ids[i]
  {
    if ids == [] then Some([])
    else
      match NewIcon(t, ids[0])
      case None => None
      case Some(first) =>
        match LoadIcons(t, ids[1..])
        case None => None
        case Some(rest) => Some([first] + rest)
  }

  /** `FontAwesome#icons` before any selection: one icon per catalog id. It
      loads exactly when every catalog id resolves; its icons then carry the
      catalog ids in catalog order, each with its code point. */
  function Catalog(t: IconTable): (r: Option<seq<Icon>>)
    ensures r.Some? <==> forall id :: id in t.ids ==> Resolvable(t, id)
    ensures r.Some? ==> |r.value| == |t.ids|
    ensures r.Some? ==> forall i :: 0 <= i < |t.ids| ==>
      r.value[i] == Icon(t.ids[i], DetectUnicode(t, t.ids[i]).value)
  {
    LoadIcons(t, t.ids)
  }

  /** The characters catalog ids and code points never contain: they would
      need escaping in XML, or they would clash with the `|||` separator or the
      line structure. */
  predicate CatalogText(s: string) {
    '<' !in s && '&' !in s && '"' !in s && '|' !in s && '\n' !in s
  }

  predicate CatalogIcon(icon: Icon) {
    CatalogText(icon.id) && CatalogText(icon.unicode)
  }

  /** The embedded data as the workflow ships it: every id resolves, and ids,
      code points and canonical ids are plain catalog text, every code point
      non-empty. */
  predicate WellFormed(t: IconTable) {
    (forall id :: id in t.ids ==> Resolvable(t, id) && CatalogText(id)) &&
    (forall id :: id in t.unicodes ==> CatalogText(t.unicodes[id]) && t.unicodes[id] != []) &&
    (forall id :: id in t.aliases ==> CatalogText(t.aliases[id]))
  }

  /** The icons of a well-formed table are plain catalog text with a
      non-empty code point. */
  lemma WellFormedCatalog(t: IconTable)
    requires WellFormed(t)
    ensures Catalog(t).Some?
    ensures forall i :: 0 <= i < |Catalog(t).value| ==>
      CatalogIcon(Catalog(t).value[i]) && Catalog(t).value[i].unicode != []
  {
    var icons := Catalog(t).value;
    forall i | 0 <= i < |icons|
      ensures CatalogIcon(icons[i]) && icons[i].unicode != []
    {
      assert t.ids[i] in t.ids;
      var u := DetectUnicode(t, t.ids[i]).value;
      var k :| k in t.unicodes && t.unicodes[k] == u;
    }
  }
}
