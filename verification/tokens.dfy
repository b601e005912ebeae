/**
 * Shortcode tokens as `extractTags` builds them from the scanner's matches:
 * classification against the registration table, the running tag index, and the
 * one-token lookahead that pairs legacy open/close tags.
 */
module Tokens {
  import opened Common
  import opened Registry

  /** A token is an opening `[name ...]` or a closing `[/name]`. */
  datatype Kind = Open(name: string) | Close(name: string)

  /** `$tag['markerTag']`: the element used as marker, or how the token is otherwise treated. */
  datatype MarkerTag = Div | Span | Undefined | NoTranslate | Literal

  /** One entry of `$tags` (src/Parsers/ShortcodeParser.php:313-371). */
  datatype Token = Token(
    text: string,
    s: nat,
    e: nat,
    kind: Kind,
    attrs: map<string, string>,
    content: string,
    oesc: bool,
    cesc1: bool,
    cesc2: bool,
    index: nat,
    registered: bool,
    hasStartAndEnd: bool,
    markerTag: MarkerTag)
  {
    predicate Escaped() { oesc || cesc1 || cesc2 }

    /** `$tag['open']`: the name of an opening token; empty (PHP's unmatched group) for a close. */
    function OpenName(): string { if kind.Open? then kind.name else "" }

    /** `$tag['close']`: the name of a closing token; empty for an open. */
    function CloseName(): string { if kind.Close? then kind.name else "" }
  }

  /** An opening token that expects its own close. */
  predicate IsPairedOpen(t: Token) {
    t.kind.Open? && t.hasStartAndEnd
  }

  /**
   * One match of the scanner regex: the whole text and its offset, the `open` and
   * `close` groups ("" when the group did not take part), the parsed attributes and
   * the three escape groups. A match of an HTML element has both groups empty.
   */
  datatype RawMatch = RawMatch(
    text: string,
    s: nat,
    open: string,
    close: string,
    attrs: map<string, string>,
    oesc: bool,
    cesc1: bool,
    cesc2: bool)

  /** `empty($match['open'][0]) && empty($match['close'][0])`: not a shortcode (:296). */
  predicate Skipped(m: RawMatch) {
    IsFalsy(m.open) && IsFalsy(m.close)
  }

  /** The text of a shortcode match: brackets at both ends, doubled where the escape groups say. */
  predicate BracketShape(text: string, oesc: bool, cesc: bool) {
    |text| >= 3 && text[0] == '[' && text[|text| - 1] == ']'
    && (oesc ==> text[1] == '[')
    && (cesc ==> text[|text| - 2] == ']')
  }

  /** One match lies inside `content` at its offset, and a shortcode match has the bracket shape. */
  ghost predicate MatchOk(content: string, m: RawMatch) {
    m.s + |m.text| <= |content|
    && content[m.s..m.s + |m.text|] == m.text
    && (m.open == "" || m.close == "")
    && (!Skipped(m) ==> BracketShape(m.text, m.oesc, m.cesc1 || m.cesc2))
  }

  /** What the scanner guarantees about its matches over `content`: each is well placed, in order, without overlap. */
  ghost predicate MatchesWellFormed(content: string, ms: seq<RawMatch>) {
    (forall i | 0 <= i < |ms| :: MatchOk(content, ms[i]))
    && (forall i, j | 0 <= i < j < |ms| :: ms[i].s + |ms[i].text| <= ms[j].s)
  }

  /** Each token's span holds its text and has the shape of a shortcode. */
  ghost predicate TokenShape(content: string, t: Token) {
    t.e == t.s + |t.text| && t.e <= |content| && content[t.s..t.e] == t.text
    && !IsFalsy(t.kind.name)
    && BracketShape(t.text, t.oesc, t.cesc1 || t.cesc2)
  }

  /** The invariant of `$tags`: indexed by position, spans sorted and disjoint (:313-326). */
  ghost predicate TokensWellFormed(content: string, tags: seq<Token>) {
    (forall i | 0 <= i < |tags| :: tags[i].index == i && TokenShape(content, tags[i]))
    && (forall i, j | 0 <= i < j < |tags| :: tags[i].e <= tags[j].s)
  }

  /** PHP `is_numeric` (PHP 7 grammar): optional leading white space, sign, digits with an optional
      fraction, optional exponent, and nothing after. */
  predicate IsNumeric(s: string) {
    var a := SkipWhile(s, 0, false);
    var b := if a < |s| && (s[a] == '+' || s[a] == '-') then a + 1 else a;
    var c := SkipWhile(s, b, true);
    var d := if c < |s| && s[c] == '.' then SkipWhile(s, c + 1, true) else c;
    var mantissa := c > b || d > c + 1;
    if !mantissa then false
    else if d < |s| && (s[d] == 'e' || s[d] == 'E') then
      var f := if d + 1 < |s| && (s[d + 1] == '+' || s[d + 1] == '-') then d + 2 else d + 1;
      var g := SkipWhile(s, f, true);
      g > f && g == |s|
    else d == |s|
  }

  predicate IsSpace(c: char) {
    c == ' ' || c == '\t' || c == '\n' || c == '\r' || c == '\U{0B}' || c == '\U{0C}'
  }

  /** The end of the run of digits (or of white space) starting at `i`. */
  function SkipWhile(s: string, i: nat, digits: bool): (j: nat)
    decreases |s| - i
    ensures i <= |s| ==> i <= j <= |s|
    ensures i > |s| ==> j == i
    ensures forall k | i <= k < j :: if digits then IsDigit(s[k]) else IsSpace(s[k])
    ensures i <= j < |s| ==> !(if digits then IsDigit(s[j]) else IsSpace(s[j]))
  {
    if i >= |s| then i
    else if (if digits then IsDigit(s[i]) else IsSpace(s[i])) then SkipWhile(s, i + 1, digits)
    else i
  }

  /** What the lookup against the registration table decides for one name. */
  datatype Classification = Classification(registered: bool, hasStartAndEnd: bool, markerTag: MarkerTag)

  /**
   * Classification of a tag name (:337-371): with metadata, `div` exactly for a block
   * result and `span` otherwise; without metadata never paired, `span` for a registered
   * or numeric name and `undefined` otherwise.
   */
  function Classify(name: string, metadata: map<string, Metadata>, handlers: set<string>): (c: Classification)
    ensures c.registered <==> name in metadata
    ensures c.hasStartAndEnd <==> name in metadata && metadata[name].hasStartAndEnd
    ensures c.markerTag == Div <==> name in metadata && metadata[name].expectedResult == RESULT_BLOCK
    ensures c.markerTag == Undefined <==> name !in metadata && name !in handlers && !IsNumeric(name)
    ensures c.markerTag == Div || c.markerTag == Span || c.markerTag == Undefined
  {
    if name in metadata then
      var conf := metadata[name];
      Classification(true, conf.hasStartAndEnd, if conf.expectedResult == RESULT_BLOCK then Div else Span)
    else if name !in handlers then
      Classification(false, false, if IsNumeric(name) then Span else Undefined)
    else
      Classification(false, false, Span)
  }

  /** The token built from a kept match with the given running index (:313-371). */
  function MakeToken(m: RawMatch, index: nat, metadata: map<string, Metadata>, handlers: set<string>): Token {
    var kind := if !IsFalsy(m.open) then Open(m.open) else Close(m.close);
    var c := Classify(kind.name, metadata, handlers);
    Token(m.text, m.s, m.s + |m.text|, kind, m.attrs, "", m.oesc, m.cesc1, m.cesc2, index,
          c.registered, c.hasStartAndEnd, c.markerTag)
  }

  /** The tokens of the matches from `next` on, element matches dropped, indexes counted from `index`. */
  function TokensFrom(ms: seq<RawMatch>, metadata: map<string, Metadata>, handlers: set<string>, index: nat): seq<Token>
    decreases |ms|
  {
    if ms == [] then []
    else if Skipped(ms[0]) then TokensFrom(ms[1..], metadata, handlers, index)
    else [MakeToken(ms[0], index, metadata, handlers)] + TokensFrom(ms[1..], metadata, handlers, index + 1)
  }

  /** Every token of the list is classified as its name dictates. */
  ghost predicate Classified(tags: seq<Token>, metadata: map<string, Metadata>, handlers: set<string>) {
    forall i | 0 <= i < |tags| :: TokenClassified(tags[i], metadata, handlers)
  }

  /** A token carries the classification of its name. */
  ghost predicate TokenClassified(t: Token, metadata: map<string, Metadata>, handlers: set<string>) {
    var c := Classify(t.kind.name, metadata, handlers);
    t.registered == c.registered && t.hasStartAndEnd == c.hasStartAndEnd && t.markerTag == c.markerTag
  }

  lemma ConsClassified(t: Token, rest: seq<Token>, metadata: map<string, Metadata>, handlers: set<string>)
    requires TokenClassified(t, metadata, handlers) && Classified(rest, metadata, handlers)
    ensures Classified([t] + rest, metadata, handlers)
  {
    assert forall i | 1 <= i < |[t] + rest| :: ([t] + rest)[i] == rest[i - 1];
  }

  /** The tokens of a match list lie inside the span from `lo` to `hi` the matches occupy. */
  lemma {:induction false} TokensFromBounds(content: string, ms: seq<RawMatch>, metadata: map<string, Metadata>,
                                           handlers: set<string>, index: nat, lo: nat)
    requires MatchesWellFormed(content, ms)
    requires forall i | 0 <= i < |ms| :: lo <= ms[i].s
    ensures forall k | 0 <= k < |TokensFrom(ms, metadata, handlers, index)| ::
      lo <= TokensFrom(ms, metadata, handlers, index)[k].s
  {
    if ms != [] {
      assert MatchesWellFormed(content, ms[1..]);
      TokensFromBounds(content, ms[1..], metadata, handlers, if Skipped(ms[0]) then index else index + 1, lo);
    }
  }

  /** A kept match becomes a token whose span holds its text. */
  lemma MakeTokenShape(content: string, m: RawMatch, index: nat, metadata: map<string, Metadata>, handlers: set<string>)
    requires MatchOk(content, m) && !Skipped(m)
    ensures TokenShape(content, MakeToken(m, index, metadata, handlers))
    ensures MakeToken(m, index, metadata, handlers).index == index
  {
  }

  /**
   * The scanned tokens satisfy the `$tags` invariant: each is indexed by its position,
   * spans stay sorted and disjoint, and every token is classified from its name.
   */
  lemma TokensFromWellFormed(content: string, ms: seq<RawMatch>, metadata: map<string, Metadata>, handlers: set<string>)
    requires MatchesWellFormed(content, ms)
    ensures TokensWellFormed(content, TokensFrom(ms, metadata, handlers, 0))
    ensures Classified(TokensFrom(ms, metadata, handlers, 0), metadata, handlers)
  {
    TokensFromIndexed(content, ms, metadata, handlers, 0);
    TokensFromSorted(content, ms, metadata, handlers, 0);
    TokensFromClassified(ms, metadata, handlers, 0);
  }

  /** The matches after the first are well formed and start after the first one ends. */
  lemma MatchesTail(content: string, ms: seq<RawMatch>)
    requires MatchesWellFormed(content, ms) && ms != []
    ensures MatchesWellFormed(content, ms[1..])
    ensures forall i | 0 <= i < |ms[1..]| :: ms[0].s + |ms[0].text| <= ms[1..][i].s
  {
    assert forall i | 0 <= i < |ms[1..]| :: ms[1..][i] == ms[i + 1];
  }

  /** The tokens from position `index` on are numbered by position and lie in the content. */
  ghost predicate IndexedFrom(content: string, ts: seq<Token>, index: nat) {
    forall i | 0 <= i < |ts| :: ts[i].index == index + i && TokenShape(content, ts[i])
  }

  /** Spans sorted and disjoint. */
  ghost predicate SortedSpans(ts: seq<Token>) {
    forall i, j | 0 <= i < j < |ts| :: ts[i].e <= ts[j].s
  }

  lemma ConsIndexed(content: string, t: Token, rest: seq<Token>, index: nat)
    requires t.index == index && TokenShape(content, t) && IndexedFrom(content, rest, index + 1)
    ensures IndexedFrom(content, [t] + rest, index)
  {
    var ts := [t] + rest;
    assert forall i | 1 <= i < |ts| :: ts[i] == rest[i - 1];
  }

  lemma ConsSorted(t: Token, rest: seq<Token>)
    requires SortedSpans(rest) && forall k | 0 <= k < |rest| :: t.e <= rest[k].s
    ensures SortedSpans([t] + rest)
  {
    var ts := [t] + rest;
    assert forall i | 1 <= i < |ts| :: ts[i] == rest[i - 1];
  }

  lemma {:induction false} TokensFromIndexed(content: string, ms: seq<RawMatch>, metadata: map<string, Metadata>,
                                            handlers: set<string>, index: nat)
    requires MatchesWellFormed(content, ms)
    ensures IndexedFrom(content, TokensFrom(ms, metadata, handlers, index), index)
  {
    if ms != [] {
      MatchesTail(content, ms);
      if Skipped(ms[0]) {
        TokensFromIndexed(content, ms[1..], metadata, handlers, index);
      } else {
        MakeTokenShape(content, ms[0], index, metadata, handlers);
        TokensFromIndexed(content, ms[1..], metadata, handlers, index + 1);
        ConsIndexed(content, MakeToken(ms[0], index, metadata, handlers),
                    TokensFrom(ms[1..], metadata, handlers, index + 1), index);
      }
    }
  }

  lemma {:induction false} TokensFromSorted(content: string, ms: seq<RawMatch>, metadata: map<string, Metadata>,
                                           handlers: set<string>, index: nat)
    requires MatchesWellFormed(content, ms)
    ensures SortedSpans(TokensFrom(ms, metadata, handlers, index))
  {
    if ms != [] {
      MatchesTail(content, ms);
      if Skipped(ms[0]) {
        TokensFromSorted(content, ms[1..], metadata, handlers, index);
      } else {
        var t := MakeToken(ms[0], index, metadata, handlers);
        TokensFromSorted(content, ms[1..], metadata, handlers, index + 1);
        TokensFromBounds(content, ms[1..], metadata, handlers, index + 1, t.e);
        ConsSorted(t, TokensFrom(ms[1..], metadata, handlers, index + 1));
      }
    }
  }

  lemma {:induction false} TokensFromClassified(ms: seq<RawMatch>, metadata: map<string, Metadata>,
                                               handlers: set<string>, index: nat)
    ensures Classified(TokensFrom(ms, metadata, handlers, index), metadata, handlers)
  {
    if ms != [] {
      if Skipped(ms[0]) {
        TokensFromClassified(ms[1..], metadata, handlers, index);
      } else {
        TokensFromClassified(ms[1..], metadata, handlers, index + 1);
        var t := MakeToken(ms[0], index, metadata, handlers);
        assert TokenClassified(t, metadata, handlers);
        ConsClassified(t, TokensFrom(ms[1..], metadata, handlers, index + 1), metadata, handlers);
      }
    }
  }

  /**
   * The scanning loop of `extractTags` (:291-375): drop element matches, build and
   * classify a token per shortcode match, and number the tokens consecutively.
   */
  method BuildTokens(content: string, ms: seq<RawMatch>, metadata: map<string, Metadata>, handlers: set<string>)
    returns (tags: seq<Token>)
    requires MatchesWellFormed(content, ms)
    ensures tags == TokensFrom(ms, metadata, handlers, 0)
    ensures TokensWellFormed(content, tags) && Classified(tags, metadata, handlers)
  {
    tags := [];
    var tagIndex := 0;
    for i := 0 to |ms|
      invariant tagIndex == |tags|
      invariant tags + TokensFrom(ms[i..], metadata, handlers, tagIndex) == TokensFrom(ms, metadata, handlers, 0)
    {
      var m := ms[i];
      TokensFromStep(ms, i, metadata, handlers, tagIndex);
      if !Skipped(m) {
        var t := MakeToken(m, tagIndex, metadata, handlers);
        AppendOne(tags, t, TokensFrom(ms[i + 1..], metadata, handlers, tagIndex + 1));
        tags := tags + [t];
        tagIndex := tagIndex + 1;
      }
    }
    assert ms[|ms|..] == [];
    TokensFromWellFormed(content, ms, metadata, handlers);
  }

  lemma AppendOne(tags: seq<Token>, t: Token, later: seq<Token>)
    ensures tags + ([t] + later) == (tags + [t]) + later
  {
  }

  /** One step of the scanning loop: the match at `i` is dropped or becomes the next token. */
  lemma TokensFromStep(ms: seq<RawMatch>, i: nat, metadata: map<string, Metadata>, handlers: set<string>, index: nat)
    requires i < |ms|
    ensures TokensFrom(ms[i..], metadata, handlers, index)
         == if Skipped(ms[i]) then TokensFrom(ms[i + 1..], metadata, handlers, index)
            else [MakeToken(ms[i], index, metadata, handlers)] + TokensFrom(ms[i + 1..], metadata, handlers, index + 1)
  {
    assert ms[i..][1..] == ms[i + 1..];
  }

  // ---------------------------------------------------------------------------
  // The lookahead pass (:382-395)

  /**
   * Token `i` opens a legacy pair: it has no metadata, it is an open, and the very
   * next token closes the same name.
   */
  predicate StartsLegacyPair(tags: seq<Token>, i: int) {
    0 <= i && i + 1 < |tags| && !tags[i].registered && tags[i].kind.Open?
    && tags[i + 1].kind == Close(tags[i].kind.name)
  }

  /** Token `i` once the previous step has run: the close of an unresolved legacy pair is left alone. */
  function Pending(tags: seq<Token>, i: nat): Token
    requires i < |tags|
  {
    if i > 0 && StartsLegacyPair(tags, i - 1) && tags[i - 1].markerTag == Undefined
    then tags[i].(markerTag := NoTranslate)
    else tags[i]
  }

  /** Token `i` after the lookahead pass. */
  function PairMarked(tags: seq<Token>, i: nat): Token
    requires i < |tags|
  {
    var t := Pending(tags, i);
    if !StartsLegacyPair(tags, i) then t
    else if tags[i].markerTag == Undefined then t.(hasStartAndEnd := true, markerTag := NoTranslate)
    else t.(hasStartAndEnd := true)
  }

  /** The whole token list after the lookahead pass. */
  function Marked(tags: seq<Token>): (r: seq<Token>)
    ensures |r| == |tags|
  {
    seq(|tags|, i requires 0 <= i < |tags| => PairMarked(tags, i))
  }

  /** Tags named with a non-empty name (the scanner's `\w+` groups). */
  ghost predicate NamesNonEmpty(tags: seq<Token>) {
    forall i | 0 <= i < |tags| :: tags[i].kind.name != ""
  }

  /** The loop state of the lookahead after `i` steps. */
  ghost predicate MarkedUpTo(tags: seq<Token>, cur: seq<Token>, i: nat) {
    |cur| == |tags| && i <= |tags|
    && (forall j | 0 <= j < i :: cur[j] == PairMarked(tags, j))
    && (i < |tags| ==> cur[i] == Pending(tags, i))
    && (forall j | i < j < |tags| :: cur[j] == tags[j])
  }

  /**
   * The lookahead loop, restricted to opening tokens (the corrected form; see
   * LookaheadAsWritten): an open without metadata followed by its close becomes a
   * start/end pair, and an undefined pair is left untranslated on both ends.
   */
  method MarkLegacyPairs(tags: seq<Token>) returns (out: seq<Token>)
    requires NamesNonEmpty(tags)
    ensures out == Marked(tags)
  {
    out := tags;
    for i := 0 to |tags|
      invariant MarkedUpTo(tags, out, i)
    {
      var t := out[i];
      if !t.registered && t.kind.Open? && i < |out| - 1 && out[i + 1].CloseName() == t.OpenName() {
        out := out[i := t.(hasStartAndEnd := true)];
        if t.markerTag == Undefined {
          out := out[i := out[i].(markerTag := NoTranslate)][i + 1 := out[i + 1].(markerTag := NoTranslate)];
        }
      }
    }
  }

  /**
   * The lookahead changes nothing but `hasStartAndEnd` and `markerTag`, never touches a
   * token with metadata, and marks exactly the undefined tokens of adjacent legacy
   * pairs as untranslated.
   */
  lemma MarkedFacts(tags: seq<Token>, metadata: map<string, Metadata>, handlers: set<string>, i: nat)
    requires Classified(tags, metadata, handlers) && i < |tags|
    ensures Marked(tags)[i] == tags[i].(hasStartAndEnd := Marked(tags)[i].hasStartAndEnd,
                                        markerTag := Marked(tags)[i].markerTag)
    ensures tags[i].registered ==> Marked(tags)[i] == tags[i]
    ensures Marked(tags)[i].hasStartAndEnd <==> tags[i].hasStartAndEnd || StartsLegacyPair(tags, i)
    ensures Marked(tags)[i].markerTag == NoTranslate <==>
      tags[i].markerTag == Undefined && (StartsLegacyPair(tags, i) || StartsLegacyPair(tags, i - 1))
    ensures Marked(tags)[i].markerTag != NoTranslate ==> Marked(tags)[i].markerTag == tags[i].markerTag
  {
    if i > 0 && StartsLegacyPair(tags, i - 1) {
      assert tags[i].kind.name == tags[i - 1].kind.name;
    }
  }

  /** One step of the lookahead loop as written: the test compares `close` of the next token with `open`. */
  function LookaheadStepAsWritten(tags: seq<Token>, i: nat): (r: seq<Token>)
    requires i < |tags|
    ensures |r| == |tags|
  {
    var t := tags[i];
    if !t.registered && i < |tags| - 1 && tags[i + 1].CloseName() == t.OpenName() then
      if t.markerTag == Undefined
      then tags[i := t.(hasStartAndEnd := true, markerTag := NoTranslate)][i + 1 := tags[i + 1].(markerTag := NoTranslate)]
      else tags[i := t.(hasStartAndEnd := true)]
    else tags
  }

  /** The lookahead loop as written, from step `i` to the end. */
  function LookaheadAsWritten(tags: seq<Token>, i: nat): (r: seq<Token>)
    decreases |tags| - i
    ensures |r| == |tags|
  {
    if i >= |tags| then tags else LookaheadAsWritten(LookaheadStepAsWritten(tags, i), i + 1)
  }

  /** An unregistered close immediately followed by an open: where the two readings differ. */
  predicate StrayCloseBeforeOpen(tags: seq<Token>, i: int) {
    0 <= i && i + 1 < |tags| && !tags[i].registered && tags[i].kind.Close? && tags[i + 1].kind.Open?
  }

  /**
   * As written, an unregistered `[/foo]` followed by a registered `[bar]` compares
   * `'' == ''` (PHP's null and empty group alike) and marks `[bar]` untranslated,
   * so `[bar]` is never expanded; the open-only reading leaves it alone.
   */
  lemma StrayCloseSilencesNextShortcode()
    ensures var foo := Token("[/foo]", 0, 6, Close("foo"), map[], "", false, false, false, 0, false, false, Undefined);
            var bar := Token("[bar]", 6, 11, Open("bar"), map[], "", false, false, false, 1, true, false, Span);
            LookaheadAsWritten([foo, bar], 0)[1].markerTag == NoTranslate
            && Marked([foo, bar])[1] == bar
  {
    var foo := Token("[/foo]", 0, 6, Close("foo"), map[], "", false, false, false, 0, false, false, Undefined);
    var bar := Token("[bar]", 6, 11, Open("bar"), map[], "", false, false, false, 1, true, false, Span);
    var tags := [foo, bar];
    var s1 := LookaheadStepAsWritten(tags, 0);
    assert s1[1].markerTag == NoTranslate;
    assert LookaheadAsWritten(tags, 0) == LookaheadAsWritten(s1, 1);
    var s2 := LookaheadStepAsWritten(s1, 1);
    assert s2[1] == s1[1];
    assert LookaheadAsWritten(s1, 1) == LookaheadAsWritten(s2, 2) == s2;
    assert !StartsLegacyPair(tags, 0) && !StartsLegacyPair(tags, 1);
  }

  /** One as-written step keeps the loop state whenever no stray close precedes an open. */
  lemma AsWrittenStep(tags: seq<Token>, cur: seq<Token>, i: nat)
    requires NamesNonEmpty(tags) && MarkedUpTo(tags, cur, i) && i < |tags|
    requires !StrayCloseBeforeOpen(tags, i)
    ensures MarkedUpTo(tags, LookaheadStepAsWritten(cur, i), i + 1)
  {
    var next := LookaheadStepAsWritten(cur, i);
    if i + 1 < |tags| {
      assert (cur[i + 1].CloseName() == cur[i].OpenName() && !cur[i].registered) <==> StartsLegacyPair(tags, i);
      assert next[i + 1] == Pending(tags, i + 1);
    }
  }

  /**
   * Without an unregistered close directly before an open, the lookahead as written
   * and the open-only lookahead give the same tokens.
   */
  lemma {:induction false} AsWrittenAgrees(tags: seq<Token>, cur: seq<Token>, i: nat)
    requires NamesNonEmpty(tags) && MarkedUpTo(tags, cur, i)
    requires forall j | 0 <= j < |tags| :: !StrayCloseBeforeOpen(tags, j)
    ensures LookaheadAsWritten(cur, i) == Marked(tags)
    decreases |tags| - i
  {
    if i < |tags| {
      AsWrittenStep(tags, cur, i);
      AsWrittenAgrees(tags, LookaheadStepAsWritten(cur, i), i + 1);
    } else {
      assert cur == Marked(tags);
    }
  }
}
