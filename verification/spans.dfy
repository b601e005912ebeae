/**
 * Replacing token spans in the content: the reverse marker pass of
 * `generateDepthFirstOrderedTags` (src/Parsers/ShortcodeParser.php:535-603) and
 * `replaceTagsWithText` (:702-731). Both are specified by one forward splice.
 */
module Spans {
  import opened Common
  import opened Tokens
  import opened Errors

  /** Spans lie in the content, hold their token's text, and are sorted and disjoint. */
  ghost predicate SpansOk(content: string, tags: seq<Token>) {
    (forall k | 0 <= k < |tags| :: TokenShape(content, tags[k]))
    && (forall k1, k2 | 0 <= k1 < k2 < |tags| :: tags[k1].e <= tags[k2].s)
  }

  /** Where the `k`th span starts; the end of the content past the last one. */
  function Start(content: string, tags: seq<Token>, k: nat): nat {
    if k < |tags| then tags[k].s else |content|
  }

  /** The element name of a marker. */
  function ElementName(m: MarkerTag): string {
    if m == Div then "div" else "span"
  }

  /** The opening marker element of a shortcode. */
  function OpenMarker(m: MarkerTag, markerClass: string, index: nat): string {
    "<" + ElementName(m) + " class=\"" + markerClass + "\" data-tagid=\"" + NatToString(index) + "\">"
  }

  function CloseMarker(m: MarkerTag): string {
    "</" + ElementName(m) + ">"
  }

  /** One `[` dropped when the open is escaped, one `]` when the close is. */
  function Unwrapped(t: Token): (r: string)
    requires BracketShape(t.text, t.oesc, t.cesc1 || t.cesc2)
    ensures (if t.oesc then "[" else "") + r + (if t.cesc1 || t.cesc2 then "]" else "") == t.text
  {
    UnwrapSplit(t.text, t.oesc, t.cesc1 || t.cesc2);
    t.text[(if t.oesc then 1 else 0)..(if t.cesc1 || t.cesc2 then |t.text| - 1 else |t.text|)]
  }

  /** The text is the dropped `[`, the kept middle and the dropped `]`. */
  lemma UnwrapSplit(text: string, oesc: bool, cesc: bool)
    requires BracketShape(text, oesc, cesc)
    ensures (if oesc then "[" else "") + text[(if oesc then 1 else 0)..(if cesc then |text| - 1 else |text|)]
            + (if cesc then "]" else "") == text
  {
    var lo := if oesc then 1 else 0;
    var hi := if cesc then |text| - 1 else |text|;
    assert text == text[..lo] + text[lo..hi] + text[hi..];
    assert text[..lo] == (if oesc then "[" else "");
    assert text[hi..] == (if cesc then "]" else "");
  }

  /** Which span-replacing pass runs, with the settings it reads. */
  datatype Pass =
    | MarkerPass(policy: Policy, markerClass: string)
      /** `call` stands for `callShortcode(open, attrs, content)`; None is PHP's `false`. */
    | AttributePass(policy: Policy, call: (string, map<string, string>, string) -> Option<string>)

  /**
   * What replaces one span, None leaving it untouched. The marker pass (:537-600): an
   * undefined token by policy, a notranslate one untouched, a literal by its content,
   * an escaped one by its text less the escape brackets, a close by a closing marker, a
   * paired open by an opening marker and an unpaired open by an empty marker element.
   * The attribute pass (:715-719, :752-756): an escaped token by its text less one character
   * at each end, any other by the handler's result or the policy's fallback.
   */
  function Replacement(pass: Pass, t: Token): Result<Option<string>>
    requires BracketShape(t.text, t.oesc, t.cesc1 || t.cesc2)
  {
    match pass
    case MarkerPass(policy, markerClass) =>
      (match t.markerTag
       case Undefined => UndefinedReplacement(policy, t)
       case NoTranslate => Ok(None)
       case Literal => Ok(Some(t.content))
       case _ =>
         if t.Escaped() then Ok(Some(Unwrapped(t)))
         else if !IsFalsy(t.CloseName()) then Ok(Some(CloseMarker(t.markerTag)))
         else if IsFalsy(t.OpenName()) then Ok(None)
         else if t.hasStartAndEnd then Ok(Some(OpenMarker(t.markerTag, markerClass, t.index)))
         else Ok(Some(OpenMarker(t.markerTag, markerClass, t.index) + CloseMarker(t.markerTag))))
    case AttributePass(policy, call) =>
      if t.Escaped() then Ok(Some(t.text[1..|t.text| - 1]))
      else
        var g :- ShortcodeReplacementText(policy, call(t.OpenName(), t.attrs, t.content), t, false);
        Ok(Some(g))
  }

  /**
   * The replacement of each kind of span in the marker pass (:537-600): an undefined
   * token by policy, a notranslate one untouched, a literal by its content, an escaped
   * one by its text less the escape brackets, a close by a closing marker, a paired
   * open by an opening marker carrying its index, an unpaired open by an empty marker
   * element. Only an undefined token can abort.
   */
  lemma MarkerReplacementShapes(policy: Policy, markerClass: string, t: Token)
    requires BracketShape(t.text, t.oesc, t.cesc1 || t.cesc2) && !IsFalsy(t.kind.name)
    ensures var r := Replacement(MarkerPass(policy, markerClass), t);
      && (t.markerTag == Undefined ==> r == UndefinedReplacement(policy, t))
      && (t.markerTag != Undefined ==> r.Ok?)
      && (t.markerTag == NoTranslate ==> r == Ok(None))
      && (t.markerTag == Literal ==> r == Ok(Some(t.content)))
      && (t.markerTag in {Div, Span} && t.Escaped() ==> r == Ok(Some(Unwrapped(t))))
      && (t.markerTag in {Div, Span} && !t.Escaped() && t.kind.Close? ==> r == Ok(Some(CloseMarker(t.markerTag))))
      && (t.markerTag in {Div, Span} && !t.Escaped() && IsPairedOpen(t) ==>
            r == Ok(Some(OpenMarker(t.markerTag, markerClass, t.index))))
      && (t.markerTag in {Div, Span} && !t.Escaped() && t.kind.Open? && !t.hasStartAndEnd ==>
            r == Ok(Some(OpenMarker(t.markerTag, markerClass, t.index) + CloseMarker(t.markerTag))))
  {
  }

  /**
   * In the attribute pass (:715-719, :752-756) an escaped token loses one character at
   * each end, and any other is replaced by what the handler returns or, when it fails,
   * by the policy's fallback for a context where HTML may not be inserted.
   */
  lemma AttributeReplacementShapes(policy: Policy, call: (string, map<string, string>, string) -> Option<string>, t: Token)
    requires BracketShape(t.text, t.oesc, t.cesc1 || t.cesc2)
    ensures var r := Replacement(AttributePass(policy, call), t);
      && (t.Escaped() ==> r == Ok(Some(t.text[1..|t.text| - 1])))
      && (!t.Escaped() ==>
            var g := ShortcodeReplacementText(policy, call(t.OpenName(), t.attrs, t.content), t, false);
            && (r.Abort? <==> g.Abort?)
            && (g.Ok? ==> r == Ok(Some(g.value))))
  {
  }

  /** The text a span is replaced with, or its own text when left untouched. */
  function Piece(content: string, t: Token, rep: Option<string>): string
    requires t.s <= t.e <= |content|
  {
    if rep.Some? then rep.value else content[t.s..t.e]
  }

  /**
   * The content from the start of span `k` on, with spans `k..` replaced. The
   * replacement of a later span is computed first, so the abort of the last failing
   * span is the one reported, as in a loop that runs backwards.
   */
  function SpliceFrom(content: string, tags: seq<Token>, k: nat, pass: Pass): Result<string>
    requires SpansOk(content, tags) && k <= |tags|
    decreases |tags| - k
  {
    if k == |tags| then Ok([])
    else
      var rest :- SpliceFrom(content, tags, k + 1, pass);
      var rep :- Replacement(pass, tags[k]);
      Ok(Piece(content, tags[k], rep) + content[tags[k].e..Start(content, tags, k + 1)] + rest)
  }

  /** The content with every span replaced: text before the first span, then the spliced rest. */
  function Splice(content: string, tags: seq<Token>, pass: Pass): Result<string>
    requires SpansOk(content, tags)
  {
    var rest :- SpliceFrom(content, tags, 0, pass);
    Ok(content[..Start(content, tags, 0)] + rest)
  }

  /** An abort at span `k` is what the whole splice reports. */
  lemma SpliceAbortPersists(content: string, tags: seq<Token>, k: nat, pass: Pass)
    requires SpansOk(content, tags) && k <= |tags| && SpliceFrom(content, tags, k, pass).Abort?
    ensures Splice(content, tags, pass) == Abort(SpliceFrom(content, tags, k, pass).message)
  {
    var j: int := k;
    while j > 0
      invariant 0 <= j <= k
      invariant SpliceFrom(content, tags, j, pass) == SpliceFrom(content, tags, k, pass)
    {
      AbortStepDown(content, tags, j, pass);
      j := j - 1;
    }
  }

  /** An abort from span `k` on is also the result from span `k - 1` on. */
  lemma AbortStepDown(content: string, tags: seq<Token>, k: nat, pass: Pass)
    requires SpansOk(content, tags) && 0 < k <= |tags| && SpliceFrom(content, tags, k, pass).Abort?
    ensures SpliceFrom(content, tags, k - 1, pass) == SpliceFrom(content, tags, k, pass)
  {
  }

  /** A failing replacement of span `k - 1`, with the later spans spliced, is the abort the whole splice reports. */
  lemma AbortAt(content: string, tags: seq<Token>, k: nat, pass: Pass)
    requires SpansOk(content, tags) && 0 < k <= |tags| && SpliceFrom(content, tags, k, pass).Ok?
    requires Replacement(pass, tags[k - 1]).Abort?
    ensures Splice(content, tags, pass) == Abort(Replacement(pass, tags[k - 1]).message)
  {
    AbortHere(content, tags, k, pass);
    SpliceAbortPersists(content, tags, k - 1, pass);
  }

  /** A failing replacement of span `k - 1`, with the rest spliced, aborts from span `k - 1` on. */
  lemma AbortHere(content: string, tags: seq<Token>, k: nat, pass: Pass)
    requires SpansOk(content, tags) && 0 < k <= |tags| && SpliceFrom(content, tags, k, pass).Ok?
    requires Replacement(pass, tags[k - 1]).Abort?
    ensures SpliceFrom(content, tags, k - 1, pass) == Abort(Replacement(pass, tags[k - 1]).message)
  {
  }

  /** Only the ERROR policy can make a splice abort, in either pass. */
  lemma {:induction false} SpliceTotalUnlessError(content: string, tags: seq<Token>, k: nat, pass: Pass)
    requires SpansOk(content, tags) && k <= |tags| && pass.policy != Error
    ensures SpliceFrom(content, tags, k, pass).Ok?
    decreases |tags| - k
  {
    if k < |tags| {
      SpliceTotalUnlessError(content, tags, k + 1, pass);
      assert Replacement(pass, tags[k]).Ok?;
    }
  }

  /** A span whose replacement is none or its own text. */
  predicate KeepsSpan(content: string, pass: Pass, t: Token)
    requires t.s <= t.e <= |content| && BracketShape(t.text, t.oesc, t.cesc1 || t.cesc2)
  {
    var r := Replacement(pass, t);
    r.Ok? && (r.value.None? || r.value.value == content[t.s..t.e])
  }

  lemma SliceThree(s: string, a: nat, b: nat, c: nat)
    requires a <= b <= c <= |s|
    ensures s[a..] == s[a..b] + s[b..c] + s[c..]
  {
  }

  /** Every span from `k` on is kept. */
  ghost predicate KeptFrom(content: string, tags: seq<Token>, k: nat, pass: Pass)
    requires SpansOk(content, tags) && k <= |tags|
  {
    forall j | k <= j < |tags| :: KeepsSpan(content, pass, tags[j])
  }

  /** The content spliced from span `k` on is the content from that span's start on. */
  ghost predicate IdentityFrom(content: string, tags: seq<Token>, k: nat, pass: Pass)
    requires SpansOk(content, tags) && k <= |tags|
  {
    SpliceFrom(content, tags, k, pass) == Ok(content[Start(content, tags, k)..])
  }

  /**
   * Splicing is the identity when every span is kept: the text between spans and
   * around them is carried over verbatim and in order.
   */
  lemma SpliceFromIdentity(content: string, tags: seq<Token>, k: nat, pass: Pass)
    requires SpansOk(content, tags) && k <= |tags| && KeptFrom(content, tags, k, pass)
    ensures IdentityFrom(content, tags, k, pass)
  {
    assert content[|content|..] == [];
    assert IdentityFrom(content, tags, |tags|, pass);
    var j := |tags|;
    while j > k
      invariant k <= j <= |tags| && IdentityFrom(content, tags, j, pass)
    {
      assert KeepsSpan(content, pass, tags[j - 1]);
      IdentityStepDown(content, tags, j, pass);
      j := j - 1;
    }
  }

  /** Keeping span `k - 1` extends the identity back over it. */
  lemma IdentityStepDown(content: string, tags: seq<Token>, k: nat, pass: Pass)
    requires SpansOk(content, tags) && 0 < k <= |tags| && KeepsSpan(content, pass, tags[k - 1])
    requires IdentityFrom(content, tags, k, pass)
    ensures IdentityFrom(content, tags, k - 1, pass)
  {
    var t := tags[k - 1];
    var nx := Start(content, tags, k);
    assert TokenShape(content, t) && t.e <= nx;
    SpliceFromStepDown(content, tags, k, pass, content[nx..], content[t.s..t.e]);
    SliceThree(content, t.s, t.e, nx);
  }

  lemma SpliceIdentity(content: string, tags: seq<Token>, pass: Pass)
    requires SpansOk(content, tags)
    requires forall j | 0 <= j < |tags| :: KeepsSpan(content, pass, tags[j])
    ensures Splice(content, tags, pass) == Ok(content)
  {
    SpliceFromIdentity(content, tags, 0, pass);
    assert content == content[..Start(content, tags, 0)] + content[Start(content, tags, 0)..];
  }

  /**
   * Under LEAVE, content whose shortcodes are all undefined or notranslate comes out of
   * the marker pass unchanged.
   */
  lemma LeaveKeepsUnknownShortcodes(content: string, tags: seq<Token>, markerClass: string)
    requires SpansOk(content, tags)
    requires forall j | 0 <= j < |tags| :: tags[j].markerTag == Undefined || tags[j].markerTag == NoTranslate
    ensures Splice(content, tags, MarkerPass(Leave, markerClass)) == Ok(content)
  {
    SpliceIdentity(content, tags, MarkerPass(Leave, markerClass));
  }

  /**
   * Both passes unwrap a token escaped at both ends the same way, to a shortcode in
   * single brackets (`[[b]]` shows as `[b]`); on a token escaped at one end only, the
   * attribute pass still drops a character from each end, so `[[b]` gives `[b` there and
   * `[b]` in the marker pass.
   */
  lemma EscapeUnwrapping(t: Token, policy: Policy, markerClass: string,
                         call: (string, map<string, string>, string) -> Option<string>)
    requires BracketShape(t.text, t.oesc, t.cesc1 || t.cesc2) && (t.markerTag == Div || t.markerTag == Span)
    requires t.oesc && (t.cesc1 || t.cesc2)
    ensures Replacement(MarkerPass(policy, markerClass), t) == Replacement(AttributePass(policy, call), t)
    ensures "[" + Unwrapped(t) + "]" == t.text
    ensures |Unwrapped(t)| >= 2 && Unwrapped(t)[0] == '[' && Unwrapped(t)[|Unwrapped(t)| - 1] == ']'
  {
  }

  lemma OneSidedEscapesDiffer(policy: Policy, markerClass: string,
                              call: (string, map<string, string>, string) -> Option<string>)
    ensures var t := Token("[[b]", 0, 4, Open("b"), map[], "", true, false, false, 0, true, false, Span);
      && Replacement(MarkerPass(policy, markerClass), t) == Ok(Some("[b]"))
      && Replacement(AttributePass(policy, call), t) == Ok(Some("[b"))
  {
    var t := Token("[[b]", 0, 4, Open("b"), map[], "", true, false, false, 0, true, false, Span);
    assert t.text[1..4] == "[b]";
    assert t.text[1..|t.text| - 1] == "[b";
  }

  /**
   * In the current content of a backward pass, span `i - 1` still holds its token's
   * text, and writing `piece` over it gives the content spliced from `i - 1` on.
   */
  lemma CurrentSpan(content: string, tags: seq<Token>, c: string, i: nat, rest: string, piece: string)
    requires SpansOk(content, tags) && 0 < i <= |tags|
    requires c == content[..Start(content, tags, i)] + rest
    ensures tags[i - 1].e <= |c| && c[tags[i - 1].s..tags[i - 1].e] == tags[i - 1].text
    ensures c[..tags[i - 1].s] + piece + c[tags[i - 1].e..]
         == content[..Start(content, tags, i - 1)] + (piece + content[tags[i - 1].e..Start(content, tags, i)] + rest)
  {
    var t := tags[i - 1];
    var nx := Start(content, tags, i);
    assert TokenShape(content, t);
    assert t.e <= nx;
    assert content[..nx] == content[..t.s] + content[t.s..t.e] + content[t.e..nx];
    assert c[..t.s] == content[..t.s];
    assert c[t.e..] == content[t.e..nx] + rest;
  }

  /**
   * The replacement the marker pass writes over one span (:536-600), read from the
   * current content `c`, in which the span still holds the token's text.
   */
  method MarkerSpanText(c: string, tag: Token, policy: Policy, markerClass: string) returns (r: Result<string>)
    requires tag.s <= tag.e <= |c| && c[tag.s..tag.e] == tag.text
    requires BracketShape(tag.text, tag.oesc, tag.cesc1 || tag.cesc2)
    ensures var rep := Replacement(MarkerPass(policy, markerClass), tag);
      && (r.Abort? <==> rep.Abort?)
      && (r.Abort? ==> r.message == rep.message)
      && (r.Ok? ==> r.value == Piece(c, tag, rep.value))
  {
    if tag.markerTag == Undefined {
      var u := UndefinedReplacement(policy, tag);
      if u.Abort? {
        return Abort(u.message);
      }
      if u.value.None? {
        return Ok(c[tag.s..tag.e]);
      }
      return Ok(u.value.value);
    } else if tag.markerTag == NoTranslate {
      return Ok(c[tag.s..tag.e]);
    } else if tag.markerTag == Literal {
      return Ok(tag.content);
    } else if tag.Escaped() {
      var start := tag.s;
      var end := tag.e;
      if tag.oesc {
        start := start + 1;
      }
      if tag.cesc1 || tag.cesc2 {
        end := end - 1;
      }
      SubSlice(c, tag.text, tag.s, tag.e, start, end);
      return Ok(c[start..end]);
    } else if !IsFalsy(tag.CloseName()) {
      return Ok(CloseMarker(tag.markerTag));
    } else if !IsFalsy(tag.OpenName()) {
      if tag.hasStartAndEnd {
        return Ok(OpenMarker(tag.markerTag, markerClass, tag.index));
      }
      return Ok(OpenMarker(tag.markerTag, markerClass, tag.index) + CloseMarker(tag.markerTag));
    }
    return Ok(c[tag.s..tag.e]);
  }

  /** A slice inside a span holding `text` is the matching slice of `text`. */
  lemma SubSlice(c: string, text: string, s: nat, e: nat, a: nat, b: nat)
    requires s <= a <= b <= e <= |c| && c[s..e] == text
    ensures c[a..b] == text[a - s..b - s]
  {
    forall k | 0 <= k < b - a ensures c[a..b][k] == text[a - s..b - s][k] {
      assert c[a + k] == c[s..e][a - s + k];
    }
  }

  /** One backward step: span `i` and the gap after it are put in front of the spliced rest. */
  lemma SpliceFromStep(content: string, tags: seq<Token>, i: nat, pass: Pass, rest: string, piece: string)
    requires SpansOk(content, tags) && i < |tags|
    requires SpliceFrom(content, tags, i + 1, pass) == Ok(rest)
    requires Replacement(pass, tags[i]).Ok? && piece == Piece(content, tags[i], Replacement(pass, tags[i]).value)
    ensures SpliceFrom(content, tags, i, pass) == Ok(piece + content[tags[i].e..Start(content, tags, i + 1)] + rest)
  {
  }

  /** `SpliceFromStep` from span `k` back to span `k - 1`. */
  lemma SpliceFromStepDown(content: string, tags: seq<Token>, k: nat, pass: Pass, rest: string, piece: string)
    requires SpansOk(content, tags) && 0 < k <= |tags|
    requires SpliceFrom(content, tags, k, pass) == Ok(rest)
    requires Replacement(pass, tags[k - 1]).Ok? && piece == Piece(content, tags[k - 1], Replacement(pass, tags[k - 1]).value)
    ensures SpliceFrom(content, tags, k - 1, pass) == Ok(piece + content[tags[k - 1].e..Start(content, tags, k)] + rest)
  {
    SpliceFromStep(content, tags, k - 1, pass, rest, piece);
  }

  /**
   * The marker pass as written (:535-603): spans are replaced from the last to the
   * first, each by slicing the current content at the span's own offsets, which the
   * later spans already replaced have not moved.
   */
  method RewriteSpans(content: string, tags: seq<Token>, policy: Policy, markerClass: string) returns (r: Result<string>)
    requires SpansOk(content, tags)
    ensures r == Splice(content, tags, MarkerPass(policy, markerClass))
  {
    var c := content;
    var i := |tags|;
    ghost var rest := [];
    ghost var pass := MarkerPass(policy, markerClass);
    while i > 0
      invariant 0 <= i <= |tags|
      invariant Rewritten(content, tags, i, pass, c, rest)
    {
      var step: Result<string>;
      ghost var rest': string;
      step, rest' := MarkerStep(content, tags, i, policy, markerClass, c, rest);
      if step.Abort? {
        return step;
      }
      c, rest, i := step.value, rest', i - 1;
    }
    r := Ok(c);
  }

  /** The loop state of the marker pass: `c` is the content before span `i`, then the splice from `i` on. */
  ghost predicate Rewritten(content: string, tags: seq<Token>, i: nat, pass: Pass, c: string, rest: string)
    requires SpansOk(content, tags) && i <= |tags|
  {
    SpliceFrom(content, tags, i, pass) == Ok(rest) && c == content[..Start(content, tags, i)] + rest
  }

  /**
   * One iteration of the marker pass, on span `i - 1` of the current content `c`: a
   * failed replacement is the abort the whole splice reports, and otherwise the piece
   * written over the span extends the loop state down to `i - 1`.
   */
  method MarkerStep(content: string, tags: seq<Token>, i: nat, policy: Policy, markerClass: string,
                    c: string, ghost rest: string) returns (r: Result<string>, ghost rest': string)
    requires SpansOk(content, tags) && 0 < i <= |tags| && Rewritten(content, tags, i, MarkerPass(policy, markerClass), c, rest)
    ensures r.Abort? ==> Splice(content, tags, MarkerPass(policy, markerClass)) == r
    ensures r.Ok? ==> Rewritten(content, tags, i - 1, MarkerPass(policy, markerClass), r.value, rest')
  {
    ghost var pass := MarkerPass(policy, markerClass);
    var tag := tags[i - 1];
    CurrentSpan(content, tags, c, i, rest, "");
    var replaced := MarkerSpanText(c, tag, policy, markerClass);
    if replaced.Abort? {
      AbortAt(content, tags, i, pass);
      return replaced, rest;
    }
    var c' := c[..tag.s] + replaced.value + c[tag.e..];
    rest' := replaced.value + content[tag.e..Start(content, tags, i)] + rest;
    RewriteStepDown(content, tags, i, pass, c, rest, replaced.value, c', rest');
    r := Ok(c');
  }

  /** One iteration of the marker pass: writing span `i - 1`'s piece over the current content. */
  lemma RewriteStepDown(content: string, tags: seq<Token>, i: nat, pass: Pass, c: string, rest: string, piece: string,
                        c': string, rest': string)
    requires SpansOk(content, tags) && 0 < i <= |tags| && Rewritten(content, tags, i, pass, c, rest)
    requires Replacement(pass, tags[i - 1]).Ok?
    requires tags[i - 1].s <= tags[i - 1].e <= |c| && piece == Piece(c, tags[i - 1], Replacement(pass, tags[i - 1]).value)
    requires c' == c[..tags[i - 1].s] + piece + c[tags[i - 1].e..]
    requires rest' == piece + content[tags[i - 1].e..Start(content, tags, i)] + rest
    ensures Rewritten(content, tags, i - 1, pass, c', rest')
  {
    var t := tags[i - 1];
    assert TokenShape(content, t);
    CurrentSpan(content, tags, c, i, rest, piece);
    SpliceFromStepDown(content, tags, i, pass, rest, piece);
  }

  /**
   * The text the attribute pass puts in place of one span (:715-719, :752-756): the
   * escaped token's text less its outer characters, else what the generator returns.
   */
  method AttributeSpanText(content: string, tag: Token, policy: Policy,
                           call: (string, map<string, string>, string) -> Option<string>) returns (r: Result<string>)
    requires tag.s <= tag.e <= |content| && content[tag.s..tag.e] == tag.text
    requires BracketShape(tag.text, tag.oesc, tag.cesc1 || tag.cesc2)
    ensures var rep := Replacement(AttributePass(policy, call), tag);
      && (r.Abort? <==> rep.Abort?)
      && (r.Abort? ==> r.message == rep.message)
      && (r.Ok? ==> r.value == Piece(content, tag, rep.value))
  {
    if tag.Escaped() {
      SubSlice(content, tag.text, tag.s, tag.e, tag.s + 1, tag.e - 1);
      return Ok(content[tag.s + 1..tag.e - 1]);
    }
    var g := ShortcodeReplacementText(policy, call(tag.OpenName(), tag.attrs, tag.content), tag, false);
    if g.Abort? {
      return Abort(g.message);
    }
    return Ok(g.value);
  }

  /**
   * `replaceTagsWithText` (:702-731) with the attribute generator of
   * `replaceAttributeTagsWithContent` (:752-756): the result is accumulated backwards
   * from each span's replacement and the gap after it, then the text before the first
   * span is prepended. The caller never passes an empty list (:751).
   */
  method ReplaceTagsWithText(content: string, tags: seq<Token>, policy: Policy,
                             call: (string, map<string, string>, string) -> Option<string>) returns (r: Result<string>)
    requires SpansOk(content, tags) && |tags| > 0
    ensures r == Splice(content, tags, AttributePass(policy, call))
  {
    var pass := AttributePass(policy, call);
    var str := "";
    var li: Option<nat> := None;
    var i := |tags|;
    while i > 0
      invariant 0 <= i <= |tags|
      invariant li == (if i == |tags| then None else Some(tags[i].s))
      invariant SpliceFrom(content, tags, i, pass) == Ok(str)
    {
      var tag := tags[i - 1];
      var tail: string;
      if li.None? {
        tail := content[tag.e..];
      } else {
        assert tag.e <= tags[i].s;
        tail := content[tag.e..li.value];
      }
      assert tail == content[tag.e..Start(content, tags, i)];
      assert TokenShape(content, tag);
      var piece := AttributeSpanText(content, tag, policy, call);
      if piece.Abort? {
        AbortAt(content, tags, i, pass);
        return Abort(piece.message);
      }
      SpliceFromStepDown(content, tags, i, pass, str, piece.value);
      str := piece.value + tail + str;
      li := Some(tag.s);
      i := i - 1;
    }
    r := Ok(content[..tags[0].s] + str);
  }
}
