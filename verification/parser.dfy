/**
 * The parser object (src/Parsers/ShortcodeParser.php): its registration table, the
 * text-mode tag extraction that turns shortcodes into marker elements, the rewriting
 * of shortcodes inside attribute values, and the tests `parse` makes before it starts.
 */
module Parser {
  import opened Common
  import opened Registry
  import opened Tokens
  import opened Errors
  import opened Nesting
  import opened Spans
  import opened Fragment

  /** What `extractTags` returns: the content with markers, the tag list, the processing order. */
  datatype Extracted = Extracted(content: string, tags: seq<Token>, ordered: seq<Token>)

  /** The lookahead keeps the `$tags` invariant of the scanned tokens. */
  lemma MarkedWellFormed(content: string, ms: seq<RawMatch>, metadata: map<string, Metadata>, handlers: set<string>)
    requires MatchesWellFormed(content, ms)
    ensures NamesNonEmpty(TokensFrom(ms, metadata, handlers, 0))
    ensures TokensWellFormed(content, Marked(TokensFrom(ms, metadata, handlers, 0)))
  {
    var ts := TokensFrom(ms, metadata, handlers, 0);
    TokensFromWellFormed(content, ms, metadata, handlers);
    forall i | 0 <= i < |ts|
      ensures Marked(ts)[i].index == i && TokenShape(content, Marked(ts)[i])
      ensures Marked(ts)[i].s == ts[i].s && Marked(ts)[i].e == ts[i].e
    {
      MarkedFacts(ts, metadata, handlers, i);
    }
  }

  /** Error handling rewrites only a token's marker and content, so the spans survive nesting. */
  lemma NestedSpans(content: string, tags0: seq<Token>, handlers: set<string>, policy: Policy)
    requires TokensWellFormed(content, tags0)
    requires Nest(tags0, |tags0|, handlers, policy).Ok?
    ensures TokensWellFormed(content, Nest(tags0, |tags0|, handlers, policy).value.tags)
    ensures SpansOk(content, Nest(tags0, |tags0|, handlers, policy).value.tags)
  {
    var ts := Nest(tags0, |tags0|, handlers, policy).value.tags;
    NestTags(tags0, |tags0|, handlers, policy);
    forall q | 0 <= q < |ts| ensures ts[q].index == q && TokenShape(content, ts[q]) && ts[q].s == tags0[q].s {
      assert ErrorRewritten(tags0[q], ts[q]);
    }
  }

  /**
   * `extractTags` (:285-423) on the scanner's matches: build the tokens, mark legacy
   * pairs, order them for nested replacement while handling stray and mismatched
   * closes, then put markers in place of the spans.
   */
  function Extract(content: string, ms: seq<RawMatch>, metadata: map<string, Metadata>, handlers: set<string>,
                   policy: Policy, markerClass: string): Result<Extracted>
    requires MatchesWellFormed(content, ms)
  {
    var tags := Marked(TokensFrom(ms, metadata, handlers, 0));
    MarkedWellFormed(content, ms, metadata, handlers);
    var st :- Nest(tags, |tags|, handlers, policy);
    NestedSpans(content, tags, handlers, policy);
    var out :- Splice(content, st.tags, MarkerPass(policy, markerClass));
    Ok(Extracted(out, st.tags, st.ordered))
  }

  /** What the nesting pass guarantees of scanned tokens, with their spans. */
  lemma NestedTags(content: string, tags0: seq<Token>, handlers: set<string>, policy: Policy)
    requires TokensWellFormed(content, tags0)
    requires Nest(tags0, |tags0|, handlers, policy).Ok?
    ensures var st := Nest(tags0, |tags0|, handlers, policy).value;
      && |st.tags| == |tags0|
      && TokensWellFormed(content, st.tags)
      && (forall q | 0 <= q < |tags0| :: ErrorRewritten(tags0[q], st.tags[q]))
      && (forall k | 0 <= k < |st.ordered| :: st.ordered[k].index < |tags0| && st.ordered[k] == tags0[st.ordered[k].index])
      && (forall k1, k2 | 0 <= k1 < k2 < |st.ordered| :: st.ordered[k1].index != st.ordered[k2].index)
      && (forall q | 0 <= q < |tags0| && tags0[q].kind.Open? && !IsPairedOpen(tags0[q]) :: q in IndexSet(st.ordered))
  {
    NestedSpans(content, tags0, handlers, policy);
    NestTags(tags0, |tags0|, handlers, policy);
    assert Indexed(tags0) && NamesTruthy(tags0);
    EmittedExactlyOnce(tags0, handlers, policy);
    UnpairedOpensEmitted(tags0, handlers, policy);
  }

  /**
   * An extraction that succeeds returns one token per shortcode match, still indexed by
   * position and in their spans; each token is the scanned one or, for a stray or
   * mismatched close, a literal of it; and the processing order lists distinct scanned
   * tokens, every open without a closing tag among them.
   */
  lemma ExtractedTags(content: string, ms: seq<RawMatch>, metadata: map<string, Metadata>, handlers: set<string>,
                      policy: Policy, markerClass: string)
    requires MatchesWellFormed(content, ms)
    requires Extract(content, ms, metadata, handlers, policy, markerClass).Ok?
    ensures var tags0 := Marked(TokensFrom(ms, metadata, handlers, 0));
      var ex := Extract(content, ms, metadata, handlers, policy, markerClass).value;
      && |ex.tags| == |tags0|
      && TokensWellFormed(content, ex.tags)
      && (forall q | 0 <= q < |tags0| :: ErrorRewritten(tags0[q], ex.tags[q]))
      && (forall k | 0 <= k < |ex.ordered| :: ex.ordered[k].index < |tags0| && ex.ordered[k] == tags0[ex.ordered[k].index])
      && (forall k1, k2 | 0 <= k1 < k2 < |ex.ordered| :: ex.ordered[k1].index != ex.ordered[k2].index)
      && (forall q | 0 <= q < |tags0| && tags0[q].kind.Open? && !IsPairedOpen(tags0[q]) :: q in IndexSet(ex.ordered))
  {
    var tags0 := Marked(TokensFrom(ms, metadata, handlers, 0));
    ExtractUnfold(content, ms, metadata, handlers, policy, markerClass);
    MarkedWellFormed(content, ms, metadata, handlers);
    NestedTags(content, tags0, handlers, policy);
  }

  /** A successful extraction returns the tags and order of the nesting pass. */
  lemma ExtractUnfold(content: string, ms: seq<RawMatch>, metadata: map<string, Metadata>, handlers: set<string>,
                      policy: Policy, markerClass: string)
    requires MatchesWellFormed(content, ms)
    requires Extract(content, ms, metadata, handlers, policy, markerClass).Ok?
    ensures var tags0 := Marked(TokensFrom(ms, metadata, handlers, 0));
      var ex := Extract(content, ms, metadata, handlers, policy, markerClass).value;
      && Nest(tags0, |tags0|, handlers, policy).Ok?
      && ex.tags == Nest(tags0, |tags0|, handlers, policy).value.tags
      && ex.ordered == Nest(tags0, |tags0|, handlers, policy).value.ordered
  {
  }

  /** Only the ERROR policy makes the extraction fail. */
  lemma ExtractTotalUnlessError(content: string, ms: seq<RawMatch>, metadata: map<string, Metadata>, handlers: set<string>,
                                policy: Policy, markerClass: string)
    requires MatchesWellFormed(content, ms) && policy != Error
    ensures Extract(content, ms, metadata, handlers, policy, markerClass).Ok?
  {
    var tags0 := Marked(TokensFrom(ms, metadata, handlers, 0));
    MarkedWellFormed(content, ms, metadata, handlers);
    NestTotalUnlessError(tags0, |tags0|, handlers, policy);
    var st := Nest(tags0, |tags0|, handlers, policy).value;
    NestedSpans(content, tags0, handlers, policy);
    SpliceTotalUnlessError(content, st.tags, 0, MarkerPass(policy, markerClass));
  }

  /** A scan with no shortcode match gives no tokens. */
  lemma {:induction false} NoShortcodeMatches(ms: seq<RawMatch>, metadata: map<string, Metadata>, handlers: set<string>, index: nat)
    requires forall i | 0 <= i < |ms| :: Skipped(ms[i])
    ensures TokensFrom(ms, metadata, handlers, index) == []
    decreases |ms|
  {
    if ms != [] {
      NoShortcodeMatches(ms[1..], metadata, handlers, index);
    }
  }

  /** Content without shortcodes comes back from the extraction as it went in, with no tags. */
  lemma NoShortcodesUnchanged(content: string, ms: seq<RawMatch>, metadata: map<string, Metadata>, handlers: set<string>,
                              policy: Policy, markerClass: string)
    requires MatchesWellFormed(content, ms)
    requires forall i | 0 <= i < |ms| :: Skipped(ms[i])
    ensures Extract(content, ms, metadata, handlers, policy, markerClass) == Ok(Extracted(content, [], []))
  {
    NoShortcodeMatches(ms, metadata, handlers, 0);
    assert Marked([]) == [];
    assert content[..|content|] + [] == content;
  }

  /**
   * `replaceAttributeTagsWithContent` (:741-761) for one attribute value: extract its
   * tags (which may abort), and if there are any, splice in each handler's result with
   * HTML not allowed. The extracted marker content itself is discarded.
   */
  function AttributeValue(value: string, ms: seq<RawMatch>, metadata: map<string, Metadata>, handlers: set<string>,
                          policy: Policy, markerClass: string,
                          call: (string, map<string, string>, string) -> Option<string>): Result<string>
    requires MatchesWellFormed(value, ms)
  {
    var ex :- Extract(value, ms, metadata, handlers, policy, markerClass);
    ExtractedTags(value, ms, metadata, handlers, policy, markerClass);
    if |ex.tags| == 0 then Ok(value) else Splice(value, ex.tags, AttributePass(policy, call))
  }

  /** An attribute value without shortcodes is left as it is. */
  lemma AttributeWithoutShortcodes(value: string, ms: seq<RawMatch>, metadata: map<string, Metadata>, handlers: set<string>,
                                   policy: Policy, markerClass: string,
                                   call: (string, map<string, string>, string) -> Option<string>)
    requires MatchesWellFormed(value, ms)
    requires forall i | 0 <= i < |ms| :: Skipped(ms[i])
    ensures AttributeValue(value, ms, metadata, handlers, policy, markerClass, call) == Ok(value)
  {
    NoShortcodesUnchanged(value, ms, metadata, handlers, policy, markerClass);
  }

  /** Only the ERROR policy makes the rewriting of an attribute value fail. */
  lemma AttributeTotalUnlessError(value: string, ms: seq<RawMatch>, metadata: map<string, Metadata>, handlers: set<string>,
                                  policy: Policy, markerClass: string,
                                  call: (string, map<string, string>, string) -> Option<string>)
    requires MatchesWellFormed(value, ms) && policy != Error
    ensures AttributeValue(value, ms, metadata, handlers, policy, markerClass, call).Ok?
  {
    ExtractTotalUnlessError(value, ms, metadata, handlers, policy, markerClass);
    var ex := Extract(value, ms, metadata, handlers, policy, markerClass).value;
    ExtractedTags(value, ms, metadata, handlers, policy, markerClass);
    SpliceTotalUnlessError(value, ex.tags, 0, AttributePass(policy, call));
  }

  /**
   * The entries of the processing order that `parse` places (:159-163): every one whose
   * marker is neither undefined nor notranslate, in order.
   */
  function MarkersToPlace(ordered: seq<Token>): (r: seq<Token>)
    ensures forall t | t in r :: t in ordered && t.markerTag != Undefined && t.markerTag != NoTranslate
    ensures forall t | t in ordered && t.markerTag != Undefined && t.markerTag != NoTranslate :: t in r
    ensures |r| <= |ordered|
  {
    if ordered == [] then []
    else
      var rest := MarkersToPlace(ordered[1..]);
      if ordered[0].markerTag == Undefined || ordered[0].markerTag == NoTranslate then rest
      else [ordered[0]] + rest
  }

  /**
   * The filter keeps the processing order: the entries placed from two stretches of the
   * order are those of the first stretch, then those of the second.
   */
  lemma {:induction false} MarkersToPlaceAppend(a: seq<Token>, b: seq<Token>)
    ensures MarkersToPlace(a + b) == MarkersToPlace(a) + MarkersToPlace(b)
    decreases |a|
  {
    if a != [] {
      ConsAppend(a, b);
      MarkersToPlaceAppend(a[1..], b);
      var x, y := MarkersToPlace(a[1..]), MarkersToPlace(b);
      if a[0].markerTag == Undefined || a[0].markerTag == NoTranslate {
        assert MarkersToPlace(a) == x;
        assert MarkersToPlace(a + b) == MarkersToPlace(a[1..] + b);
      } else {
        assert MarkersToPlace(a) == [a[0]] + x;
        assert MarkersToPlace(a + b) == [a[0]] + MarkersToPlace(a[1..] + b);
        AppendAssoc([a[0]], x, y);
      }
    } else {
      assert a + b == b;
    }
  }

  lemma AppendAssoc(x: seq<Token>, y: seq<Token>, z: seq<Token>)
    ensures x + (y + z) == (x + y) + z
  {
  }

  lemma ConsAppend(a: seq<Token>, b: seq<Token>)
    requires a != []
    ensures (a + b)[0] == a[0] && (a + b)[1..] == a[1..] + b
  {
  }

  /** A single entry is placed exactly when it is neither undefined nor notranslate. */
  lemma MarkersToPlaceOne(t: Token)
    ensures MarkersToPlace([t]) == if t.markerTag == Undefined || t.markerTag == NoTranslate then [] else [t]
  {
    assert [t][1..] == [];
  }

  /** The parser with its registration table (`$this->shortcodes` and `$this->extraMetadata`). */
  class ShortcodeParser {
    /** Shortcode name to handler. */
    var shortcodes: map<string, Callback>
    /** The options of the shortcodes registered with options. */
    var extraMetadata: map<string, Metadata>

    /** Only invokable handlers are recorded, and metadata only for a recorded name. */
    ghost predicate Valid()
      reads this
    {
      extraMetadata.Keys <= shortcodes.Keys && forall n | n in shortcodes :: shortcodes[n].Callable?
    }

    constructor()
      ensures Valid() && shortcodes == map[] && extraMetadata == map[]
    {
      shortcodes := map[];
      extraMetadata := map[];
    }

    predicate Registered(name: string)
      reads this
    {
      name in shortcodes
    }

    /**
     * `register` (:64-86): a handler that cannot be invoked is ignored. Otherwise it
     * replaces any earlier handler of the name, and options, when given, replace the
     * name's metadata with the defaults merged in; re-registering without options keeps
     * the metadata recorded before.
     */
    method Register(name: string, callback: Callback, options: Option<RawOptions>) returns (registered: bool)
      requires Valid()
      modifies this
      ensures Valid()
      ensures registered <==> callback.Callable?
      ensures !callback.Callable? ==> shortcodes == old(shortcodes) && extraMetadata == old(extraMetadata)
      ensures callback.Callable? ==> shortcodes == old(shortcodes)[name := callback]
      ensures callback.Callable? && OptionsGiven(options) ==>
                extraMetadata == old(extraMetadata)[name := MergeOptions(options.value)]
      ensures callback.Callable? && !OptionsGiven(options) ==> extraMetadata == old(extraMetadata)
      ensures callback.Callable? ==> Registered(name) && Classify(name, extraMetadata, shortcodes.Keys).markerTag != Undefined
      ensures callback.Callable? && OptionsGiven(options) ==>
                Classify(name, extraMetadata, shortcodes.Keys).registered
                && (Classify(name, extraMetadata, shortcodes.Keys).hasStartAndEnd <==> options.value.hasStartAndEnd == Some(true))
    {
      if !callback.Callable? {
        return false;
      }
      shortcodes := shortcodes[name := callback];
      if OptionsGiven(options) {
        extraMetadata := extraMetadata[name := MergeOptions(options.value)];
      }
      return true;
    }

    /**
     * The tests at the top of `parse` (:93-127) that hand the content back untouched: a
     * template fragment, no registered shortcodes, or content that trims to a falsy string.
     */
    predicate ReturnsEarly(content: string)
      reads this
    {
      ContentIsFragment(content) || shortcodes == map[] || IsFalsy(Trim(content))
    }

    /** `extractTags` on this parser's table; the scanner's matches are given. */
    method ExtractTags(content: string, ms: seq<RawMatch>, policy: Policy, markerClass: string) returns (r: Result<Extracted>)
      requires MatchesWellFormed(content, ms)
      ensures r == Extract(content, ms, extraMetadata, shortcodes.Keys, policy, markerClass)
    {
      var tags := BuildTokens(content, ms, extraMetadata, shortcodes.Keys);
      MarkedWellFormed(content, ms, extraMetadata, shortcodes.Keys);
      tags := MarkLegacyPairs(tags);
      var st := GenerateOrder(tags, shortcodes.Keys, policy);
      if st.Abort? {
        return Abort(st.message);
      }
      NestedSpans(content, tags, shortcodes.Keys, policy);
      var out := RewriteSpans(content, st.value.tags, policy, markerClass);
      if out.Abort? {
        return Abort(out.message);
      }
      return Ok(Extracted(out.value, st.value.tags, st.value.ordered));
    }

    /** The attribute-value rewriting of `replaceAttributeTagsWithContent` on this parser's table. */
    method ReplaceAttributeValue(value: string, ms: seq<RawMatch>, policy: Policy, markerClass: string,
                                 call: (string, map<string, string>, string) -> Option<string>)
      returns (r: Result<string>)
      requires MatchesWellFormed(value, ms)
      ensures r == AttributeValue(value, ms, extraMetadata, shortcodes.Keys, policy, markerClass, call)
    {
      var ex := ExtractTags(value, ms, policy, markerClass);
      if ex.Abort? {
        return Abort(ex.message);
      }
      ExtractedTags(value, ms, extraMetadata, shortcodes.Keys, policy, markerClass);
      if |ex.value.tags| == 0 {
        return Ok(value);
      }
      r := ReplaceTagsWithText(value, ex.value.tags, policy, call);
    }
  }

  /**
   * Content that is `0` padded with white space also trims to a falsy string and is
   * handed back untouched (:125).
   */
  lemma PaddedZeroReturnsEarly(p: ShortcodeParser, w1: string, w2: string)
    requires forall i | 0 <= i < |w1| :: IsTrimmed(w1[i])
    requires forall i | 0 <= i < |w2| :: IsTrimmed(w2[i])
    ensures p.ReturnsEarly(w1 + "0" + w2)
  {
    TrimPadded(w1, "0", w2);
  }

  /** Blank content is handed back untouched. */
  lemma BlankReturnsEarly(p: ShortcodeParser, content: string)
    requires forall i | 0 <= i < |content| :: IsTrimmed(content[i])
    ensures p.ReturnsEarly(content)
  {
  }
}
