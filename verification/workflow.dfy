/** The `FontAwesome` object: built with the catalog and a query list, it
    holds the icon list that `select!` filters in place. */
module Workflow {
  import opened Wrappers
  import opened Icons
  import opened Matcher
  import opened Formatter

  class FontAwesome {
    /** `#icons`: the catalog, narrowed by every selection made so far. */
    var icons: seq<Icon>
    const queries: seq<string>

    /** Every icon held came from a well-formed catalog: its id and code point
        are text an XML attribute and the `|||` argument can carry, and the
        code point is not empty. */
    ghost predicate Valid()
      reads this
    {
      forall i :: 0 <= i < |icons| ==> CatalogIcon(icons[i]) && icons[i].unicode != []
    }

    /** `FontAwesome.new(queries)`: every icon of the table `t`, in the order
        of its id list, selected by `queries`. */
    constructor (t: IconTable, queries: seq<string>)
      requires WellFormed(t)
      ensures Catalog(t).Some?
      ensures this.queries == queries
      ensures icons == Select(Catalog(t).value, queries)
      ensures queries == [] ==> icons == Catalog(t).value
      ensures Valid()
    {
      WellFormedCatalog(t);
      SelectNoKeywords(Catalog(t).value);
      this.queries := queries;
      icons := Catalog(t).value;
      new;
      var _ := SelectInPlace(queries);
    }

    /** `#select!(keywords)`: drops, keyword after keyword, the icons whose id
        does not contain it, and returns what is left. */
    method SelectInPlace(keywords: seq<string>) returns (selected: seq<Icon>)
      requires Valid()
      modifies this`icons
      ensures icons == Select(old(icons), keywords)
      ensures selected == icons
      ensures Valid()
    {
      SelectNoKeywords(icons);
      for q := 0 to |keywords|
        invariant icons == Select(old(icons), keywords[..q])
        invariant Valid()
      {
        SelectThenSelect(old(icons), keywords[..q], [keywords[q]]);
        assert keywords[..q + 1] == keywords[..q] + [keywords[q]];
        var before := icons;
        icons := KeepMatching(icons, keywords[q]);
        forall i | 0 <= i < |icons|
          ensures CatalogIcon(icons[i]) && icons[i].unicode != []
        {
          var j :| 0 <= j < |before| && before[j] == icons[i];
        }
      }
      assert keywords[..|keywords|] == keywords;
      selected := icons;
    }

    /** `#to_alfred`: the document written to standard output at `timestamp`
        (the Unix time of the run). It reads back as one item per icon, in
        order, and the argument Alfred hands back for an item gives `.argv`
        that icon's id and code point. */
    method ToAlfred(timestamp: int) returns (output: string)
      requires Valid()
      ensures output == AlfredOutput(icons, timestamp)
      ensures ParseAlfred(output) == Some(RenderedItems(icons, timestamp))
      ensures |RenderedItems(icons, timestamp)| == |icons|
      ensures forall i :: 0 <= i < |icons| ==>
        Argv([RenderedItems(icons, timestamp)[i].arg]) == Some(ArgvFields(Some(icons[i].id), Some(icons[i].unicode)))
    {
      output := AlfredOutput(icons, timestamp);
      AlfredOutputRoundTrip(icons, timestamp);
      forall i | 0 <= i < |icons|
        ensures Argv([RenderedItems(icons, timestamp)[i].arg]) == Some(ArgvFields(Some(icons[i].id), Some(icons[i].unicode)))
      {
        ArgvItemHashRoundTrip(icons[i]);
      }
    }
  }
}
