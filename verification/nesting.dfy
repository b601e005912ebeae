/**
 * The stack matcher of `generateDepthFirstOrderedTags` (src/Parsers/ShortcodeParser.php:477-529):
 * the order in which shortcodes are expanded, children before the shortcode that
 * encloses them.
 */
module Nesting {
  import opened Common
  import opened Tokens
  import opened Errors

  /** `$tags` (as `handleError` rewrites it), `$orderedTags` and `$stack`. */
  datatype NestState = NestState(tags: seq<Token>, ordered: seq<Token>, stack: seq<Token>)

  function UnexpectedClose(name: string): string {
    "didn't expect close of " + name
  }

  function Mismatch(expected: string, got: string): string {
    "mismatching end shortcode, expected " + expected + " but got " + got
  }

  /** `$orderedTags` and `$stack`. */
  datatype Lists = Lists(ordered: seq<Token>, stack: seq<Token>)

  /** What one token does to the two lists, whatever the policy decides for its text. */
  function Advance(l: Lists, tag: Token, handlers: set<string>): Lists {
    if !IsFalsy(tag.OpenName()) then
      if tag.hasStartAndEnd then l.(stack := l.stack + [tag]) else l.(ordered := l.ordered + [tag])
    else if IsFalsy(tag.CloseName()) then l
    else if |l.stack| == 0 then
      if tag.CloseName() in handlers then l.(ordered := l.ordered + [tag]) else l
    else if l.stack[|l.stack| - 1].OpenName() != tag.CloseName() then l
    else Lists(l.ordered + [l.stack[|l.stack| - 1]], l.stack[..|l.stack| - 1])
  }

  /** The two lists after the first `n` tokens of the scan. */
  function Order(tags0: seq<Token>, n: nat, handlers: set<string>): Lists
    requires n <= |tags0|
  {
    if n == 0 then Lists([], []) else Advance(Order(tags0, n - 1, handlers), tags0[n - 1], handlers)
  }

  /**
   * The message `handleError` is called with for token `i` (:504-526), if any: a
   * registered close met on an empty stack, or a close that differs from the stack top.
   */
  function CloseError(st: NestState, i: nat, handlers: set<string>): Option<string>
    requires i < |st.tags|
  {
    var tag := st.tags[i];
    if !IsFalsy(tag.OpenName()) || IsFalsy(tag.CloseName()) then None
    else if |st.stack| == 0 then
      if tag.CloseName() in handlers then Some(UnexpectedClose(tag.CloseName())) else None
    else if st.stack[|st.stack| - 1].OpenName() != tag.CloseName() then
      Some(Mismatch(st.stack[|st.stack| - 1].OpenName(), tag.CloseName()))
    else None
  }

  /** `$tags` after `handleError` has seen token `i`: rewritten in place, or an abort. */
  function RewriteClose(st: NestState, i: nat, handlers: set<string>, policy: Policy): Result<seq<Token>>
    requires i < |st.tags|
  {
    match CloseError(st, i, handlers)
    case None => Ok(st.tags)
    case Some(msg) =>
      var t :- HandleError(policy, msg, st.tags[i]);
      Ok(st.tags[i := t])
  }

  /**
   * One iteration of the ordering loop on token `i` (:492-529): the token as it was
   * before `handleError` moves the two lists, and `handleError` rewrites it in `$tags`
   * or aborts.
   */
  function NestStep(st: NestState, i: nat, handlers: set<string>, policy: Policy): Result<NestState>
    requires i < |st.tags|
  {
    var tags :- RewriteClose(st, i, handlers, policy);
    var l := Advance(Lists(st.ordered, st.stack), st.tags[i], handlers);
    Ok(NestState(tags, l.ordered, l.stack))
  }

  /**
   * A closing tag (:504-526) never pushes. On an empty stack it is ignored unless its
   * name is registered, in which case it goes through `handleError` and is emitted. One
   * that differs from the stack top goes through `handleError` and leaves both lists
   * alone; one that matches pops the top into the order. Only ERROR aborts, and only on
   * those two error paths.
   */
  lemma CloseHandling(st: NestState, i: nat, handlers: set<string>, policy: Policy)
    requires i < |st.tags| && IsFalsy(st.tags[i].OpenName()) && !IsFalsy(st.tags[i].CloseName())
    ensures var r := NestStep(st, i, handlers, policy);
      var name := st.tags[i].CloseName();
      && (r.Abort? <==>
            (policy == Error && if |st.stack| == 0 then name in handlers else st.stack[|st.stack| - 1].OpenName() != name))
      && (|st.stack| == 0 && name !in handlers ==> r == Ok(st))
      && (|st.stack| == 0 && name in handlers && r.Ok? ==>
            r.value.ordered == st.ordered + [st.tags[i]] && r.value.stack == []
            && r.value.tags[i].markerTag == Literal)
      && (|st.stack| > 0 && st.stack[|st.stack| - 1].OpenName() != name && r.Ok? ==>
            r.value.ordered == st.ordered && r.value.stack == st.stack && r.value.tags[i].markerTag == Literal)
      && (|st.stack| > 0 && st.stack[|st.stack| - 1].OpenName() == name ==>
            r == Ok(st.(ordered := st.ordered + [st.stack[|st.stack| - 1]], stack := st.stack[..|st.stack| - 1])))
  {
  }

  /** `b` is `a`, or `a` is a close that `handleError` turned into a literal. */
  predicate ErrorRewritten(a: Token, b: Token) {
    b == a || (a.kind.Close? && b == a.(markerTag := Literal, content := b.content))
  }

  /** The state after the first `n` iterations. */
  function Nest(tags0: seq<Token>, n: nat, handlers: set<string>, policy: Policy): (r: Result<NestState>)
    requires n <= |tags0|
    ensures r.Ok? ==> |r.value.tags| == |tags0|
  {
    if n == 0 then Ok(NestState(tags0, [], []))
    else
      var st :- Nest(tags0, n - 1, handlers, policy);
      NestStep(st, n - 1, handlers, policy)
  }

  /**
   * Only the token under the cursor can be rewritten, and only a close, into a literal;
   * tokens not yet reached are untouched.
   */
  lemma NestTags(tags0: seq<Token>, n: nat, handlers: set<string>, policy: Policy)
    requires n <= |tags0| && Nest(tags0, n, handlers, policy).Ok?
    ensures var r := Nest(tags0, n, handlers, policy).value;
      && (forall q | n <= q < |tags0| :: r.tags[q] == tags0[q])
      && (forall q | 0 <= q < |tags0| :: ErrorRewritten(tags0[q], r.tags[q]))
  {
    for i := 0 to n
      invariant Nest(tags0, i, handlers, policy).Ok?
      invariant var r := Nest(tags0, i, handlers, policy).value;
        && (forall q | i <= q < |tags0| :: r.tags[q] == tags0[q])
        && (forall q | 0 <= q < |tags0| :: ErrorRewritten(tags0[q], r.tags[q]))
    {
      NestOkEarlier(tags0, i + 1, n, handlers, policy);
      NestTagsStep(tags0, i, handlers, policy);
    }
  }

  /** One iteration of `NestTags`. */
  lemma NestTagsStep(tags0: seq<Token>, i: nat, handlers: set<string>, policy: Policy)
    requires i < |tags0| && Nest(tags0, i, handlers, policy).Ok? && Nest(tags0, i + 1, handlers, policy).Ok?
    requires var r := Nest(tags0, i, handlers, policy).value;
      && (forall q | i <= q < |tags0| :: r.tags[q] == tags0[q])
      && (forall q | 0 <= q < |tags0| :: ErrorRewritten(tags0[q], r.tags[q]))
    ensures var r := Nest(tags0, i + 1, handlers, policy).value;
      && (forall q | i + 1 <= q < |tags0| :: r.tags[q] == tags0[q])
      && (forall q | 0 <= q < |tags0| :: ErrorRewritten(tags0[q], r.tags[q]))
  {
    var st := Nest(tags0, i, handlers, policy).value;
    NestNext(tags0, i, handlers, policy);
    assert Nest(tags0, i + 1, handlers, policy).value.tags == RewriteClose(st, i, handlers, policy).value;
    StepTags(st, i, handlers, policy);
  }

  /** One iteration rewrites at most the token under the cursor, as `ErrorRewritten` allows. */
  lemma StepTags(st: NestState, i: nat, handlers: set<string>, policy: Policy)
    requires i < |st.tags| && RewriteClose(st, i, handlers, policy).Ok?
    ensures var ts := RewriteClose(st, i, handlers, policy).value;
      && |ts| == |st.tags|
      && (forall q | 0 <= q < |ts| && q != i :: ts[q] == st.tags[q])
      && ErrorRewritten(st.tags[i], ts[i])
  {
  }

  /** Once a step aborts, the whole run aborts with the same message. */
  lemma NestAbortPersists(tags0: seq<Token>, n: nat, m: nat, handlers: set<string>, policy: Policy)
    requires n <= m <= |tags0| && Nest(tags0, n, handlers, policy).Abort?
    ensures Nest(tags0, m, handlers, policy) == Nest(tags0, n, handlers, policy)
  {
    for i := n to m
      invariant Nest(tags0, i, handlers, policy) == Nest(tags0, n, handlers, policy)
    {
      AbortStep(tags0, i, handlers, policy);
    }
  }

  /** An aborted run stays aborted for one more token. */
  lemma AbortStep(tags0: seq<Token>, i: nat, handlers: set<string>, policy: Policy)
    requires i < |tags0| && Nest(tags0, i, handlers, policy).Abort?
    ensures Nest(tags0, i + 1, handlers, policy) == Nest(tags0, i, handlers, policy)
  {
  }

  /** Only the ERROR policy can abort the matcher. */
  lemma {:induction false} NestTotalUnlessError(tags0: seq<Token>, n: nat, handlers: set<string>, policy: Policy)
    requires n <= |tags0| && policy != Error
    ensures Nest(tags0, n, handlers, policy).Ok?
  {
    if n > 0 {
      NestTotalUnlessError(tags0, n - 1, handlers, policy);
    }
  }

  /** A run that does not abort builds the lists `Order` describes. */
  lemma NestOrder(tags0: seq<Token>, n: nat, handlers: set<string>, policy: Policy)
    requires n <= |tags0| && Nest(tags0, n, handlers, policy).Ok?
    ensures Lists(Nest(tags0, n, handlers, policy).value.ordered, Nest(tags0, n, handlers, policy).value.stack)
      == Order(tags0, n, handlers)
  {
    for i := 0 to n
      invariant Nest(tags0, i, handlers, policy).Ok?
      invariant Lists(Nest(tags0, i, handlers, policy).value.ordered, Nest(tags0, i, handlers, policy).value.stack)
        == Order(tags0, i, handlers)
    {
      NestOkEarlier(tags0, i + 1, n, handlers, policy);
      NestOrderStep(tags0, i, handlers, policy);
    }
  }

  /** A run that does not abort had not aborted at any earlier point. */
  lemma NestOkEarlier(tags0: seq<Token>, i: nat, n: nat, handlers: set<string>, policy: Policy)
    requires i <= n <= |tags0| && Nest(tags0, n, handlers, policy).Ok?
    ensures Nest(tags0, i, handlers, policy).Ok?
  {
    var j := n;
    while j > i
      invariant i <= j <= n && Nest(tags0, j, handlers, policy).Ok?
    {
      OkBefore(tags0, j, handlers, policy);
      j := j - 1;
    }
  }

  /** A run that has not aborted after `j` tokens had not aborted after `j - 1`. */
  lemma OkBefore(tags0: seq<Token>, j: nat, handlers: set<string>, policy: Policy)
    requires 0 < j <= |tags0| && Nest(tags0, j, handlers, policy).Ok?
    ensures Nest(tags0, j - 1, handlers, policy).Ok?
  {
  }

  /** One iteration of `NestOrder`: token `i` moves both runs alike. */
  lemma NestOrderStep(tags0: seq<Token>, i: nat, handlers: set<string>, policy: Policy)
    requires i < |tags0| && Nest(tags0, i + 1, handlers, policy).Ok? && Nest(tags0, i, handlers, policy).Ok?
    requires Lists(Nest(tags0, i, handlers, policy).value.ordered, Nest(tags0, i, handlers, policy).value.stack)
      == Order(tags0, i, handlers)
    ensures Lists(Nest(tags0, i + 1, handlers, policy).value.ordered, Nest(tags0, i + 1, handlers, policy).value.stack)
      == Order(tags0, i + 1, handlers)
  {
    var st := Nest(tags0, i, handlers, policy).value;
    NestNext(tags0, i, handlers, policy);
    NestTags(tags0, i, handlers, policy);
    assert st.tags[i] == tags0[i];
  }

  /**
   * The ordering and the stack do not depend on the policy: it only decides the text
   * an errored close is rewritten to, or whether the run aborts.
   */
  lemma OrderIndependentOfPolicy(tags0: seq<Token>, n: nat, handlers: set<string>, p1: Policy, p2: Policy)
    requires n <= |tags0|
    requires Nest(tags0, n, handlers, p1).Ok? && Nest(tags0, n, handlers, p2).Ok?
    ensures Nest(tags0, n, handlers, p1).value.ordered == Nest(tags0, n, handlers, p2).value.ordered
    ensures Nest(tags0, n, handlers, p1).value.stack == Nest(tags0, n, handlers, p2).value.stack
  {
    NestOrder(tags0, n, handlers, p1);
    NestOrder(tags0, n, handlers, p2);
  }

  /** One more iteration after a run that has not aborted. */
  lemma NestNext(tags0: seq<Token>, i: nat, handlers: set<string>, policy: Policy)
    requires i < |tags0| && Nest(tags0, i, handlers, policy).Ok?
    ensures Nest(tags0, i + 1, handlers, policy) == NestStep(Nest(tags0, i, handlers, policy).value, i, handlers, policy)
  {
  }

  /**
   * The loop of `generateDepthFirstOrderedTags` that builds `$orderedTags` (:492-529),
   * updating the token list in place when `handleError` rewrites a close.
   */
  method GenerateOrder(tags0: seq<Token>, handlers: set<string>, policy: Policy) returns (r: Result<NestState>)
    ensures r == Nest(tags0, |tags0|, handlers, policy)
  {
    var tags := tags0;
    var ordered: seq<Token> := [];
    var stack: seq<Token> := [];
    for i := 0 to |tags0|
      invariant Nest(tags0, i, handlers, policy) == Ok(NestState(tags, ordered, stack))
    {
      NestNext(tags0, i, handlers, policy);
      var next := OrderTag(tags, ordered, stack, i, handlers, policy);
      if next.Abort? {
        NestAbortPersists(tags0, i + 1, |tags0|, handlers, policy);
        return next;
      }
      tags, ordered, stack := next.value.tags, next.value.ordered, next.value.stack;
    }
    r := Ok(NestState(tags, ordered, stack));
  }

  /** The body of the ordering loop for token `i`: push, emit, pop, or report through `handleError`. */
  method OrderTag(tags: seq<Token>, ordered: seq<Token>, stack: seq<Token>, i: nat, handlers: set<string>, policy: Policy)
    returns (r: Result<NestState>)
    requires i < |tags|
    ensures r == NestStep(NestState(tags, ordered, stack), i, handlers, policy)
  {
    var tag := tags[i];
    if !IsFalsy(tag.OpenName()) {
      if tag.hasStartAndEnd {
        return Ok(NestState(tags, ordered, stack + [tag]));
      }
      return Ok(NestState(tags, ordered + [tag], stack));
    }
    if IsFalsy(tag.CloseName()) {
      return Ok(NestState(tags, ordered, stack));
    }
    if |stack| == 0 {
      if tag.CloseName() in handlers {
        var handled := HandleError(policy, UnexpectedClose(tag.CloseName()), tags[i]);
        if handled.Abort? {
          return Abort(handled.message);
        }
        return Ok(NestState(tags[i := handled.value], ordered + [tag], stack));
      }
      return Ok(NestState(tags, ordered, stack));
    }
    var stackTop := stack[|stack| - 1];
    if stackTop.OpenName() != tag.CloseName() {
      var handled := HandleError(policy, Mismatch(stackTop.OpenName(), tag.CloseName()), tags[i]);
      if handled.Abort? {
        return Abort(handled.message);
      }
      return Ok(NestState(tags[i := handled.value], ordered, stack));
    }
    return Ok(NestState(tags, ordered + [stackTop], stack[..|stack| - 1]));
  }

  // ---------------------------------------------------------------------------
  // What the ordering guarantees

  /** The token indexes of a list. */
  function IndexSet(ts: seq<Token>): set<nat> {
    set k | 0 <= k < |ts| :: ts[k].index
  }

  lemma IndexSetAppend(ts: seq<Token>, x: Token)
    ensures IndexSet(ts + [x]) == IndexSet(ts) + {x.index}
  {
    var l := IndexSet(ts + [x]);
    forall q | q in l ensures q in IndexSet(ts) + {x.index} {
      var k :| 0 <= k < |ts| + 1 && (ts + [x])[k].index == q;
      if k < |ts| {
        assert ts[k].index == q;
      }
    }
    forall q | q in IndexSet(ts) + {x.index} ensures q in l {
      if q == x.index {
        assert (ts + [x])[|ts|].index == q;
      } else {
        var k :| 0 <= k < |ts| && ts[k].index == q;
        assert (ts + [x])[k].index == q;
      }
    }
  }

  /** The list the scanner produced: each token's index is its position. */
  predicate Indexed(tags: seq<Token>) {
    forall q | 0 <= q < |tags| :: tags[q].index == q
  }

  /** Every token has a truthy name, as the scanner's filter (:296) ensures. */
  predicate NamesTruthy(tags: seq<Token>) {
    forall q | 0 <= q < |tags| :: !IsFalsy(tags[q].kind.name)
  }

  /** An original token, unchanged, from among the first `i`. */
  ghost predicate EmittedCopy(tags0: seq<Token>, i: nat, t: Token) {
    t.index < i <= |tags0| && tags0[t.index] == t
  }

  /** Entries of both lists are copies of tokens already scanned. */
  ghost predicate Copies(tags0: seq<Token>, i: nat, ordered: seq<Token>, stack: seq<Token>) {
    (forall k | 0 <= k < |ordered| :: EmittedCopy(tags0, i, ordered[k]))
    && (forall m | 0 <= m < |stack| :: EmittedCopy(tags0, i, stack[m]))
  }

  /** The stack holds paired opens, deeper ones later in the scan. */
  ghost predicate StackShape(stack: seq<Token>) {
    (forall m | 0 <= m < |stack| :: IsPairedOpen(stack[m]))
    && (forall m1, m2 | 0 <= m1 < m2 < |stack| :: stack[m1].index < stack[m2].index)
  }

  /** A close is only ever emitted for a registered name. */
  ghost predicate ClosesRegistered(ordered: seq<Token>, handlers: set<string>) {
    forall k | 0 <= k < |ordered| :: ordered[k].kind.Open? || ordered[k].kind.name in handlers
  }

  /** No token is emitted twice, nor both emitted and still on the stack. */
  ghost predicate Distinct(ordered: seq<Token>, stack: seq<Token>) {
    (forall k1, k2 | 0 <= k1 < k2 < |ordered| :: ordered[k1].index != ordered[k2].index)
    && (forall k, m | 0 <= k < |ordered| && 0 <= m < |stack| :: ordered[k].index != stack[m].index)
  }

  /** Every open scanned so far has been emitted or is waiting on the stack. */
  ghost predicate Covered(tags0: seq<Token>, i: nat, ordered: seq<Token>, stack: seq<Token>) {
    forall q | 0 <= q < i <= |tags0| && tags0[q].kind.Open? :: q in IndexSet(ordered) || q in IndexSet(stack)
  }

  /** Every open scanned after a stack entry has been emitted or sits above that entry. */
  ghost predicate AboveEntries(tags0: seq<Token>, i: nat, ordered: seq<Token>, stack: seq<Token>) {
    forall m, q | 0 <= m < |stack| && stack[m].index < q < i <= |tags0| && tags0[q].kind.Open? ::
      q in IndexSet(ordered) || q in IndexSet(stack[m + 1..])
  }

  /** Any entry that is not a paired open comes after everything scanned before it. */
  ghost predicate ScanOrder(ordered: seq<Token>) {
    forall k1, k2 | 0 <= k1 < k2 < |ordered| && !IsPairedOpen(ordered[k2]) :: ordered[k1].index < ordered[k2].index
  }

  ghost predicate NestInv(tags0: seq<Token>, handlers: set<string>, i: nat, ordered: seq<Token>, stack: seq<Token>) {
    Copies(tags0, i, ordered, stack) && StackShape(stack) && ClosesRegistered(ordered, handlers)
    && Distinct(ordered, stack) && Covered(tags0, i, ordered, stack) && AboveEntries(tags0, i, ordered, stack)
    && ScanOrder(ordered)
  }

  /** Step on a close that changes neither list. */
  lemma StepUnchanged(tags0: seq<Token>, handlers: set<string>, i: nat, ordered: seq<Token>, stack: seq<Token>)
    requires i < |tags0| && tags0[i].kind.Close? && NestInv(tags0, handlers, i, ordered, stack)
    ensures NestInv(tags0, handlers, i + 1, ordered, stack)
  {
  }

  /** The list facts that do not involve index sets, for a step that emits the current token. */
  lemma EmitSimple(tags0: seq<Token>, handlers: set<string>, i: nat, ordered: seq<Token>, stack: seq<Token>)
    requires i < |tags0| && Indexed(tags0)
    requires Copies(tags0, i, ordered, stack) && Distinct(ordered, stack) && ScanOrder(ordered)
    requires ClosesRegistered(ordered, handlers)
    requires !IsPairedOpen(tags0[i]) && (tags0[i].kind.Open? || tags0[i].kind.name in handlers)
    ensures Copies(tags0, i + 1, ordered + [tags0[i]], stack) && Distinct(ordered + [tags0[i]], stack)
    ensures ScanOrder(ordered + [tags0[i]]) && ClosesRegistered(ordered + [tags0[i]], handlers)
  {
  }

  /** The index-set facts for a step that emits the current token. */
  lemma EmitSets(tags0: seq<Token>, i: nat, ordered: seq<Token>, stack: seq<Token>)
    requires i < |tags0| && Indexed(tags0)
    requires Covered(tags0, i, ordered, stack) && AboveEntries(tags0, i, ordered, stack)
    ensures Covered(tags0, i + 1, ordered + [tags0[i]], stack) && AboveEntries(tags0, i + 1, ordered + [tags0[i]], stack)
  {
    IndexSetAppend(ordered, tags0[i]);
  }

  /** Step that emits the current token: an unpaired open, or a registered close met on an empty stack. */
  lemma StepEmit(tags0: seq<Token>, handlers: set<string>, i: nat, ordered: seq<Token>, stack: seq<Token>)
    requires i < |tags0| && Indexed(tags0) && NestInv(tags0, handlers, i, ordered, stack)
    requires !IsPairedOpen(tags0[i]) && (tags0[i].kind.Open? || tags0[i].kind.name in handlers)
    ensures NestInv(tags0, handlers, i + 1, ordered + [tags0[i]], stack)
  {
    EmitSimple(tags0, handlers, i, ordered, stack);
    EmitSets(tags0, i, ordered, stack);
  }

  /** The list facts that do not involve index sets, for a push. */
  lemma PushSimple(tags0: seq<Token>, i: nat, ordered: seq<Token>, stack: seq<Token>)
    requires i < |tags0| && Indexed(tags0) && IsPairedOpen(tags0[i])
    requires Copies(tags0, i, ordered, stack) && Distinct(ordered, stack) && StackShape(stack)
    ensures Copies(tags0, i + 1, ordered, stack + [tags0[i]]) && Distinct(ordered, stack + [tags0[i]])
    ensures StackShape(stack + [tags0[i]])
  {
  }

  /** The index-set facts for a push. */
  lemma PushSets(tags0: seq<Token>, i: nat, ordered: seq<Token>, stack: seq<Token>)
    requires i < |tags0| && Indexed(tags0)
    requires Covered(tags0, i, ordered, stack) && AboveEntries(tags0, i, ordered, stack)
    ensures Covered(tags0, i + 1, ordered, stack + [tags0[i]]) && AboveEntries(tags0, i + 1, ordered, stack + [tags0[i]])
  {
    var x := tags0[i];
    var s := stack + [x];
    IndexSetAppend(stack, x);
    forall m, q | 0 <= m < |s| && s[m].index < q < i + 1 <= |tags0| && tags0[q].kind.Open?
      ensures q in IndexSet(ordered) || q in IndexSet(s[m + 1..])
    {
      if m < |stack| {
        assert s[m + 1..] == stack[m + 1..] + [x];
        IndexSetAppend(stack[m + 1..], x);
      }
    }
  }

  /** Step that pushes the current paired open. */
  lemma StepPush(tags0: seq<Token>, handlers: set<string>, i: nat, ordered: seq<Token>, stack: seq<Token>)
    requires i < |tags0| && Indexed(tags0) && NestInv(tags0, handlers, i, ordered, stack)
    requires IsPairedOpen(tags0[i])
    ensures NestInv(tags0, handlers, i + 1, ordered, stack + [tags0[i]])
  {
    PushSimple(tags0, i, ordered, stack);
    PushSets(tags0, i, ordered, stack);
  }

  /** The list facts that do not involve index sets, for a pop. */
  lemma PopSimple(tags0: seq<Token>, handlers: set<string>, i: nat, ordered: seq<Token>, stack: seq<Token>)
    requires i < |tags0| && |stack| > 0
    requires Copies(tags0, i, ordered, stack) && Distinct(ordered, stack) && StackShape(stack)
    requires ScanOrder(ordered) && ClosesRegistered(ordered, handlers)
    ensures var top := stack[|stack| - 1];
      && Copies(tags0, i + 1, ordered + [top], stack[..|stack| - 1])
      && Distinct(ordered + [top], stack[..|stack| - 1])
      && StackShape(stack[..|stack| - 1])
      && ScanOrder(ordered + [top]) && ClosesRegistered(ordered + [top], handlers)
  {
  }

  /** The index-set facts for a pop. */
  lemma PopSets(tags0: seq<Token>, i: nat, ordered: seq<Token>, stack: seq<Token>)
    requires i < |tags0| && |stack| > 0 && tags0[i].kind.Close?
    requires Covered(tags0, i, ordered, stack) && AboveEntries(tags0, i, ordered, stack)
    ensures var top := stack[|stack| - 1];
      && Covered(tags0, i + 1, ordered + [top], stack[..|stack| - 1])
      && AboveEntries(tags0, i + 1, ordered + [top], stack[..|stack| - 1])
  {
    var top := stack[|stack| - 1];
    var o := ordered + [top];
    var s := stack[..|stack| - 1];
    IndexSetAppend(ordered, top);
    assert stack == s + [top];
    IndexSetAppend(s, top);
    forall m, q | 0 <= m < |s| && s[m].index < q < i + 1 <= |tags0| && tags0[q].kind.Open?
      ensures q in IndexSet(o) || q in IndexSet(s[m + 1..])
    {
      assert stack[m + 1..] == s[m + 1..] + [top];
      IndexSetAppend(s[m + 1..], top);
    }
  }

  /** Step on a close matching the stack top: the top moves to the ordered list. */
  lemma StepPop(tags0: seq<Token>, handlers: set<string>, i: nat, ordered: seq<Token>, stack: seq<Token>)
    requires i < |tags0| && NestInv(tags0, handlers, i, ordered, stack) && |stack| > 0
    requires tags0[i].kind == Close(stack[|stack| - 1].kind.name)
    ensures NestInv(tags0, handlers, i + 1, ordered + [stack[|stack| - 1]], stack[..|stack| - 1])
  {
    PopSimple(tags0, handlers, i, ordered, stack);
    PopSets(tags0, i, ordered, stack);
  }

  /** One iteration keeps the ordering invariant. */
  lemma StepKeepsInv(tags0: seq<Token>, l: Lists, i: nat, handlers: set<string>)
    requires i < |tags0| && Indexed(tags0) && NamesTruthy(tags0)
    requires NestInv(tags0, handlers, i, l.ordered, l.stack)
    ensures var next := Advance(l, tags0[i], handlers);
      NestInv(tags0, handlers, i + 1, next.ordered, next.stack)
  {
    var tag := tags0[i];
    if !IsFalsy(tag.OpenName()) {
      if tag.hasStartAndEnd {
        StepPush(tags0, handlers, i, l.ordered, l.stack);
      } else {
        StepEmit(tags0, handlers, i, l.ordered, l.stack);
      }
    } else if |l.stack| == 0 {
      if tag.CloseName() in handlers {
        StepEmit(tags0, handlers, i, l.ordered, l.stack);
      } else {
        StepUnchanged(tags0, handlers, i, l.ordered, l.stack);
      }
    } else if l.stack[|l.stack| - 1].OpenName() != tag.CloseName() {
      StepUnchanged(tags0, handlers, i, l.ordered, l.stack);
    } else {
      assert StackShape(l.stack);
      StepPop(tags0, handlers, i, l.ordered, l.stack);
    }
  }

  /** The ordering invariant holds for the lists after the first `i` tokens. */
  ghost predicate InvAt(tags0: seq<Token>, handlers: set<string>, i: nat)
    requires i <= |tags0|
  {
    NestInv(tags0, handlers, i, Order(tags0, i, handlers).ordered, Order(tags0, i, handlers).stack)
  }

  /** `StepKeepsInv`, stated on the lists of the scan. */
  lemma OrderStepKeepsInv(tags0: seq<Token>, i: nat, handlers: set<string>)
    requires i < |tags0| && Indexed(tags0) && NamesTruthy(tags0) && InvAt(tags0, handlers, i)
    ensures InvAt(tags0, handlers, i + 1)
  {
    StepKeepsInv(tags0, Order(tags0, i, handlers), i, handlers);
  }

  /** Every iteration keeps the ordering invariant. */
  lemma OrderKeepsInv(tags0: seq<Token>, n: nat, handlers: set<string>)
    requires n <= |tags0| && Indexed(tags0) && NamesTruthy(tags0)
    ensures NestInv(tags0, handlers, n, Order(tags0, n, handlers).ordered, Order(tags0, n, handlers).stack)
  {
    assert InvAt(tags0, handlers, 0);
    for i := 0 to n
      invariant InvAt(tags0, handlers, i)
    {
      OrderStepKeepsInv(tags0, i, handlers);
    }
  }

  /** The invariant holds for the lists of a whole run that does not abort. */
  lemma NestKeepsInv(tags0: seq<Token>, handlers: set<string>, policy: Policy)
    requires Indexed(tags0) && NamesTruthy(tags0)
    requires Nest(tags0, |tags0|, handlers, policy).Ok?
    ensures var st := Nest(tags0, |tags0|, handlers, policy).value;
      NestInv(tags0, handlers, |tags0|, st.ordered, st.stack)
  {
    NestOrder(tags0, |tags0|, handlers, policy);
    OrderKeepsInv(tags0, |tags0|, handlers);
  }

  // ---------------------------------------------------------------------------
  // When each entry is emitted

  /**
   * The step that emitted each entry of the ordered list after the first `n` tokens:
   * a token's own position for an unpaired open or a close, the position of the close
   * that popped it for a paired open.
   */
  ghost function EmitTimes(tags0: seq<Token>, n: nat, handlers: set<string>): seq<nat>
    requires n <= |tags0|
  {
    if n == 0 then []
    else
      var l := Order(tags0, n - 1, handlers);
      var prev := EmitTimes(tags0, n - 1, handlers);
      if |Advance(l, tags0[n - 1], handlers).ordered| > |l.ordered| then prev + [n - 1] else prev
  }

  /** Entry `k`, a paired open, was popped by the close at `c`, after every open scanned between the two. */
  ghost predicate ClosedAt(tags0: seq<Token>, ordered: seq<Token>, k: nat, c: nat)
    requires k < |ordered|
  {
    ordered[k].index < c < |tags0| && tags0[c].kind == Close(ordered[k].kind.name)
    && forall q | ordered[k].index < q < c && tags0[q].kind.Open? :: q in IndexSet(ordered[..k])
  }

  /**
   * `ends[k]` is when entry `k` was emitted. Each entry spans from its own position to
   * that step. Entries are emitted in step order, and a paired open at the close that
   * popped it. Two emitted spans are nested or disjoint, and no emitted span straddles
   * an open still on the stack.
   */
  ghost predicate Timed(tags0: seq<Token>, i: nat, ordered: seq<Token>, stack: seq<Token>, ends: seq<nat>) {
    |ends| == |ordered|
    && (forall k | 0 <= k < |ordered| :: ordered[k].index <= ends[k] < i)
    && (forall k1, k2 | 0 <= k1 < k2 < |ordered| :: ends[k1] < ends[k2])
    && (forall k | 0 <= k < |ordered| && !IsPairedOpen(ordered[k]) :: ends[k] == ordered[k].index)
    && (forall k | 0 <= k < |ordered| && IsPairedOpen(ordered[k]) :: ClosedAt(tags0, ordered, k, ends[k]))
    && (forall k1, k2 | 0 <= k1 < k2 < |ordered| :: ends[k1] < ordered[k2].index || ordered[k2].index < ordered[k1].index)
    && (forall k, m | 0 <= k < |ordered| && 0 <= m < |stack| :: ends[k] < stack[m].index || stack[m].index < ordered[k].index)
  }

  lemma ClosedAtAppend(tags0: seq<Token>, ordered: seq<Token>, x: Token, k: nat, c: nat)
    requires k < |ordered| && ClosedAt(tags0, ordered, k, c)
    ensures ClosedAt(tags0, ordered + [x], k, c)
  {
    assert (ordered + [x])[..k] == ordered[..k];
    assert (ordered + [x])[k] == ordered[k];
  }

  /** Entries already emitted keep their pop positions when another is appended. */
  lemma ClosedAtKept(tags0: seq<Token>, ordered: seq<Token>, ends: seq<nat>, x: Token, e: nat)
    requires |ends| == |ordered|
    requires forall k | 0 <= k < |ordered| && IsPairedOpen(ordered[k]) :: ClosedAt(tags0, ordered, k, ends[k])
    ensures forall k | 0 <= k < |ordered| && IsPairedOpen((ordered + [x])[k]) ::
      ClosedAt(tags0, ordered + [x], k, (ends + [e])[k])
  {
    forall k | 0 <= k < |ordered| && IsPairedOpen((ordered + [x])[k])
      ensures ClosedAt(tags0, ordered + [x], k, (ends + [e])[k])
    {
      assert (ordered + [x])[k] == ordered[k];
      ClosedAtAppend(tags0, ordered, x, k, ends[k]);
    }
  }

  /** Emitting the current token, which is not a paired open. */
  lemma TimedEmit(tags0: seq<Token>, i: nat, ordered: seq<Token>, stack: seq<Token>, ends: seq<nat>)
    requires i < |tags0| && Indexed(tags0) && !IsPairedOpen(tags0[i])
    requires Copies(tags0, i, ordered, stack) && Timed(tags0, i, ordered, stack, ends)
    ensures Timed(tags0, i + 1, ordered + [tags0[i]], stack, ends + [i])
  {
    ClosedAtKept(tags0, ordered, ends, tags0[i], i);
  }

  /** A step that emits nothing and pushes nothing. */
  lemma TimedLater(tags0: seq<Token>, i: nat, ordered: seq<Token>, stack: seq<Token>, ends: seq<nat>)
    requires Timed(tags0, i, ordered, stack, ends)
    ensures Timed(tags0, i + 1, ordered, stack, ends)
  {
  }

  /** Pushing the current paired open. */
  lemma TimedPush(tags0: seq<Token>, i: nat, ordered: seq<Token>, stack: seq<Token>, ends: seq<nat>)
    requires i < |tags0| && Indexed(tags0) && Timed(tags0, i, ordered, stack, ends)
    ensures Timed(tags0, i + 1, ordered, stack + [tags0[i]], ends)
  {
  }

  /** Popping the stack top at the close that matches it. */
  lemma TimedPop(tags0: seq<Token>, i: nat, ordered: seq<Token>, stack: seq<Token>, ends: seq<nat>)
    requires i < |tags0| && |stack| > 0 && tags0[i].kind == Close(stack[|stack| - 1].kind.name)
    requires Copies(tags0, i, ordered, stack) && StackShape(stack) && AboveEntries(tags0, i, ordered, stack)
    requires Timed(tags0, i, ordered, stack, ends)
    ensures Timed(tags0, i + 1, ordered + [stack[|stack| - 1]], stack[..|stack| - 1], ends + [i])
  {
    var top := stack[|stack| - 1];
    var o := ordered + [top];
    ClosedAtKept(tags0, ordered, ends, top, i);
    assert o[..|ordered|] == ordered;
    assert stack[|stack| - 1 + 1..] == [];
    assert IndexSet(stack[|stack| - 1 + 1..]) == {};
    assert ClosedAt(tags0, o, |ordered|, i) by {
      assert o[|ordered|] == top;
      assert forall q | top.index < q < i && tags0[q].kind.Open? :: q in IndexSet(ordered);
    }
  }

  /** One iteration keeps the emission times. */
  lemma TimedStep(tags0: seq<Token>, l: Lists, ends: seq<nat>, i: nat, handlers: set<string>)
    requires i < |tags0| && Indexed(tags0) && NamesTruthy(tags0)
    requires Copies(tags0, i, l.ordered, l.stack) && StackShape(l.stack) && AboveEntries(tags0, i, l.ordered, l.stack)
    requires Timed(tags0, i, l.ordered, l.stack, ends)
    ensures var next := Advance(l, tags0[i], handlers);
      Timed(tags0, i + 1, next.ordered, next.stack, if |next.ordered| > |l.ordered| then ends + [i] else ends)
  {
    var tag := tags0[i];
    var next := Advance(l, tag, handlers);
    if !IsFalsy(tag.OpenName()) {
      if tag.hasStartAndEnd {
        assert next == Lists(l.ordered, l.stack + [tag]);
        TimedPush(tags0, i, l.ordered, l.stack, ends);
      } else {
        assert next == Lists(l.ordered + [tag], l.stack);
        TimedEmit(tags0, i, l.ordered, l.stack, ends);
      }
    } else if |l.stack| == 0 {
      if tag.CloseName() in handlers {
        assert next == Lists(l.ordered + [tag], l.stack);
        TimedEmit(tags0, i, l.ordered, l.stack, ends);
      } else {
        assert next == l;
        TimedLater(tags0, i, l.ordered, l.stack, ends);
      }
    } else if l.stack[|l.stack| - 1].OpenName() != tag.CloseName() {
      assert next == l;
      TimedLater(tags0, i, l.ordered, l.stack, ends);
    } else {
      assert next == Lists(l.ordered + [l.stack[|l.stack| - 1]], l.stack[..|l.stack| - 1]);
      TimedPop(tags0, i, l.ordered, l.stack, ends);
    }
  }

  /** The emission times hold for the lists after the first `i` tokens. */
  ghost predicate TimedAt(tags0: seq<Token>, handlers: set<string>, i: nat)
    requires i <= |tags0|
  {
    Timed(tags0, i, Order(tags0, i, handlers).ordered, Order(tags0, i, handlers).stack, EmitTimes(tags0, i, handlers))
  }

  lemma OrderStepTimed(tags0: seq<Token>, i: nat, handlers: set<string>)
    requires i < |tags0| && Indexed(tags0) && NamesTruthy(tags0)
    requires InvAt(tags0, handlers, i) && TimedAt(tags0, handlers, i)
    ensures TimedAt(tags0, handlers, i + 1)
  {
    var l := Order(tags0, i, handlers);
    assert NestInv(tags0, handlers, i, l.ordered, l.stack);
    TimedStep(tags0, l, EmitTimes(tags0, i, handlers), i, handlers);
  }

  /** Every iteration keeps the emission times. */
  lemma OrderTimed(tags0: seq<Token>, n: nat, handlers: set<string>)
    requires n <= |tags0| && Indexed(tags0) && NamesTruthy(tags0)
    ensures TimedAt(tags0, handlers, n)
  {
    assert InvAt(tags0, handlers, 0);
    assert TimedAt(tags0, handlers, 0);
    for i := 0 to n
      invariant InvAt(tags0, handlers, i) && TimedAt(tags0, handlers, i)
    {
      OrderStepKeepsInv(tags0, i, handlers);
      OrderStepTimed(tags0, i, handlers);
    }
  }

  /**
   * After the whole list, with `ends[k]` the step that emitted entry `k`: a paired
   * shortcode is emitted at the close that popped it, after every shortcode opened
   * between the two, and anything else at its own position. Entries are emitted in step
   * order. Of two entries, the earlier one either lies inside the later one's pair, or
   * it ends before the later one starts, so siblings keep source order.
   */
  lemma ChildrenBeforeParents(tags0: seq<Token>, handlers: set<string>, policy: Policy)
    requires Indexed(tags0) && NamesTruthy(tags0)
    requires Nest(tags0, |tags0|, handlers, policy).Ok?
    ensures var o := Nest(tags0, |tags0|, handlers, policy).value.ordered;
      var ends := EmitTimes(tags0, |tags0|, handlers);
      && |ends| == |o|
      && (forall k | 0 <= k < |o| && IsPairedOpen(o[k]) :: ClosedAt(tags0, o, k, ends[k]))
      && (forall k | 0 <= k < |o| && !IsPairedOpen(o[k]) :: ends[k] == o[k].index)
      && (forall k | 0 <= k < |o| :: o[k].index <= ends[k])
      && (forall k1, k2 | 0 <= k1 < k2 < |o| ::
            (o[k2].index < o[k1].index && ends[k1] < ends[k2]) || ends[k1] < o[k2].index)
  {
    NestOrder(tags0, |tags0|, handlers, policy);
    OrderTimed(tags0, |tags0|, handlers);
  }

  /**
   * After the whole list, each open is emitted exactly when it is not left unclosed on
   * the stack, no token is emitted twice, emitted tokens are the scanned ones unchanged,
   * and a close is emitted only for a registered name.
   */
  lemma EmittedExactlyOnce(tags0: seq<Token>, handlers: set<string>, policy: Policy)
    requires Indexed(tags0) && NamesTruthy(tags0)
    requires Nest(tags0, |tags0|, handlers, policy).Ok?
    ensures var st := Nest(tags0, |tags0|, handlers, policy).value;
      && (forall q | 0 <= q < |tags0| && tags0[q].kind.Open? :: q in IndexSet(st.ordered) <==> q !in IndexSet(st.stack))
      && (forall k1, k2 | 0 <= k1 < k2 < |st.ordered| :: st.ordered[k1].index != st.ordered[k2].index)
      && (forall k | 0 <= k < |st.ordered| :: st.ordered[k].index < |tags0| && st.ordered[k] == tags0[st.ordered[k].index])
      && (forall k | 0 <= k < |st.ordered| :: st.ordered[k].kind.Open? || st.ordered[k].kind.name in handlers)
      && (forall m | 0 <= m < |st.stack| :: IsPairedOpen(st.stack[m]))
  {
    NestKeepsInv(tags0, handlers, policy);
    var st := Nest(tags0, |tags0|, handlers, policy).value;
    forall q | 0 <= q < |tags0| && tags0[q].kind.Open? && q in IndexSet(st.ordered)
      ensures q !in IndexSet(st.stack)
    {
      var k :| 0 <= k < |st.ordered| && st.ordered[k].index == q;
      forall m | 0 <= m < |st.stack| ensures st.stack[m].index != q {
        assert st.ordered[k].index != st.stack[m].index;
      }
    }
  }

  /** Every open that is not the start of a pair reaches the processing order. */
  lemma UnpairedOpensEmitted(tags0: seq<Token>, handlers: set<string>, policy: Policy)
    requires Indexed(tags0) && NamesTruthy(tags0)
    requires Nest(tags0, |tags0|, handlers, policy).Ok?
    ensures var st := Nest(tags0, |tags0|, handlers, policy).value;
      forall q | 0 <= q < |tags0| && tags0[q].kind.Open? && !IsPairedOpen(tags0[q]) :: q in IndexSet(st.ordered)
  {
    NestKeepsInv(tags0, handlers, policy);
  }
}
