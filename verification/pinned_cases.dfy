/** The concrete cases the workflow's own tests pin down, stated over the
    model. The catalog data is not part of the model, so each case names the
    table entries it needs. */
module PinnedCases {
  import opened Wrappers
  import opened Text
  import opened Icons
  import opened Formatter

  /** `.argv(['adjust|||f042'])` gives `adjust` and `f042`. */
  lemma ArgvAdjust()
    ensures Argv(["adjust|||f042"]) == Some(ArgvFields(Some("adjust"), Some("f042")))
  {
    SplitJoined("adjust", ArgSeparator, "f042");
    assert "adjust" + ArgSeparator + "f042" == "adjust|||f042";
  }

  /** `.css_class_name('adjust')` and `.url('adjust')`. */
  lemma HelpersAdjust()
    ensures CssClassName("adjust") == "fa-adjust"
    ensures Url("adjust") == "http://fontawesome.io/icon/adjust/"
  {
  }

  /** `star-half-o` resolves directly; the alias `star-half-empty` keeps its
      own id and gets the same code point `f123`. */
  lemma StarHalf(t: IconTable)
    requires "star-half-o" in t.unicodes && t.unicodes["star-half-o"] == "f123"
    requires "star-half-empty" !in t.unicodes
    requires "star-half-empty" in t.aliases && t.aliases["star-half-empty"] == "star-half-o"
    ensures NewIcon(t, "star-half-o") == Some(Icon("star-half-o", "f123"))
    ensures NewIcon(t, "star-half-empty") == Some(Icon("star-half-empty", "f123"))
  {
    assert "star-half-empty" != "star-half-o";
  }

  /** `#item_hash` of `apple` (`f179`). */
  lemma AppleItemHash()
    ensures ItemHash(Icon("apple", "f179")) ==
      Item("apple", "apple", "Paste class name: fa-apple", "apple|||f179",
           ItemIcon("default", "./icons/fa-apple.png"), "yes")
  {
  }
}
