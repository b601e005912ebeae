/**
 * Where a shortcode's output goes relative to the block that holds its marker, as
 * `parse` reads it from the shortcode's attributes (src/Parsers/ShortcodeParser.php:186-201).
 */
module Placement {
  import opened Common

  /** The parser's location constants. */
  datatype Location = Inline | Before | After | Split

  /** The attribute that decides placement: a non-empty `location`, else a non-empty `class`. */
  function PlacementClass(attrs: map<string, string>): (c: Option<string>)
    ensures "location" in attrs && !IsFalsy(attrs["location"]) ==> c == Some(attrs["location"])
    ensures !("location" in attrs && !IsFalsy(attrs["location"])) && "class" in attrs && !IsFalsy(attrs["class"])
            ==> c == Some(attrs["class"])
    ensures c.None? <==> !("location" in attrs && !IsFalsy(attrs["location"])) && !("class" in attrs && !IsFalsy(attrs["class"]))
  {
    if "location" in attrs && !IsFalsy(attrs["location"]) then Some(attrs["location"])
    else if "class" in attrs && !IsFalsy(attrs["class"]) then Some(attrs["class"])
    else None
  }

  /**
   * `left`/`right` place the output before the block, `center`/`leftALone` split the
   * block around it, and anything else, or no value, keeps it inline. AFTER is never chosen.
   */
  function LocationOf(c: Option<string>): (l: Location)
    ensures l == Before <==> c == Some("left") || c == Some("right")
    ensures l == Split <==> c == Some("center") || c == Some("leftALone")
    ensures l == Inline <==> !(c == Some("left") || c == Some("right") || c == Some("center") || c == Some("leftALone"))
    ensures l != After
  {
    if c == Some("center") || c == Some("leftALone") then Split
    else if c == Some("left") || c == Some("right") then Before
    else Inline
  }

  function LocationFor(attrs: map<string, string>): Location {
    LocationOf(PlacementClass(attrs))
  }

  /** A non-empty `location` attribute decides alone: `class` is then ignored. */
  lemma LocationTakesPrecedence(attrs: map<string, string>, cls: string)
    requires "location" in attrs && !IsFalsy(attrs["location"])
    ensures LocationFor(attrs) == LocationFor(attrs["class" := cls])
    ensures LocationFor(attrs) == LocationOf(Some(attrs["location"]))
  {
    assert attrs["class" := cls]["location"] == attrs["location"];
  }

  /** Without a usable `location`, an empty `class` (or none) keeps the output inline. */
  lemma NoPlacementIsInline(attrs: map<string, string>)
    requires !("location" in attrs && !IsFalsy(attrs["location"]))
    requires !("class" in attrs && !IsFalsy(attrs["class"]))
    ensures LocationFor(attrs) == Inline
  {
  }
}
