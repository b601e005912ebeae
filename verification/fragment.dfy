/**
 * `contentIsFragment` (src/Parsers/ShortcodeParser.php:252-273): content whose first
 * `<script>` element holds table rows or cells but no table is a template fragment, and
 * `parse` returns it untouched.
 */
module Fragment {
  import opened Common

  /** PHP truthiness of a `strpos` result: false and position 0 are both falsy. */
  predicate Truthy(pos: Option<nat>) {
    pos.Some? && pos.value != 0
  }

  /**
   * The code as it reads: find `<script`, cut from there to the end of the first
   * `</script>` after it, and apply `ScriptIsFragment` to that piece.
   */
  function ContentIsFragment(content: string): bool {
    match IndexOf(content, "<script", 0)
    case None => false
    case Some(pos) =>
      var fromScript := content[pos..];
      match IndexOf(fromScript, "</script>", 0)
      case None => false
      case Some(end) => ScriptIsFragment(fromScript[..end + 9])
  }

  /** The test on the script element: no `<table`, and the `||` of the `strpos` results for `<tr` and `<td`. */
  function ScriptIsFragment(script: string): bool {
    IndexOf(script, "<table", 0).None? && (Truthy(IndexOf(script, "<tr", 0)) || Truthy(IndexOf(script, "<td", 0)))
  }

  /** `p` and `q` locate the first script element: its `<script` and the `</script>` that ends it. */
  ghost predicate FirstScriptAt(content: string, p: nat, q: nat) {
    FirstAt(content, "<script", 0, p) && FirstAt(content, "</script>", p, q)
  }

  /** A script element counts as a fragment: rows or cells, but no table. */
  ghost predicate RowsWithoutTable(script: string) {
    !Contains(script, "<table") && (Contains(script, "<tr") || Contains(script, "<td"))
  }

  /**
   * The content is a fragment exactly when its first script element, from `<script` to the
   * end of the first `</script>` after it, mentions `<tr` or `<td` and does not mention
   * `<table`. A row or cell at the start of the element would read as position 0, which
   * PHP takes for false; that cannot happen, as the element starts with `<script`.
   */
  lemma FragmentIsTableRowsInScript(content: string)
    ensures ContentIsFragment(content) <==>
      exists p: nat, q: nat :: FirstScriptAt(content, p, q) && RowsWithoutTable(content[p..q + 9])
  {
    match IndexOf(content, "<script", 0)
    case None =>
      assert forall p: nat, q: nat :: !FirstScriptAt(content, p, q);
    case Some(pos) =>
      match IndexOf(content[pos..], "</script>", 0)
      case None => NoScriptEnd(content, pos);
      case Some(end) =>
        FirstScript(content, pos, end);
        FragmentTest(content, pos, end);
        if RowsWithoutTable(content[pos..pos + end + 9]) {
          assert FirstScriptAt(content, pos, pos + end);
        }
  }

  /** With the script element found, the code's answer is `RowsWithoutTable` of that element. */
  lemma FragmentTest(content: string, pos: nat, end: nat)
    requires IndexOf(content, "<script", 0) == Some(pos)
    requires IndexOf(content[pos..], "</script>", 0) == Some(end)
    requires pos + end + 9 <= |content| && OccursAt(content, "<script", pos)
    ensures ContentIsFragment(content) == RowsWithoutTable(content[pos..pos + end + 9])
  {
    FragmentUnfold(content, pos, end);
    ScriptStart(content, pos, end);
    ScriptTest(content[pos..][..end + 9]);
    SameScript(content, pos, end);
  }

  /** What `ContentIsFragment` computes once both searches have succeeded. */
  lemma FragmentUnfold(content: string, pos: nat, end: nat)
    requires IndexOf(content, "<script", 0) == Some(pos)
    requires IndexOf(content[pos..], "</script>", 0) == Some(end)
    ensures ContentIsFragment(content) == ScriptIsFragment(content[pos..][..end + 9])
  {
  }

  /** The piece cut in two steps is the slice of the content. */
  lemma SameScript(content: string, pos: nat, end: nat)
    requires pos + end + 9 <= |content|
    ensures RowsWithoutTable(content[pos..][..end + 9]) == RowsWithoutTable(content[pos..pos + end + 9])
  {
    assert content[pos..][..end + 9] == content[pos..pos + end + 9];
  }

  /** Without a `</script>` after the first `<script`, there is no script element. */
  lemma NoScriptEnd(content: string, pos: nat)
    requires IndexOf(content, "<script", 0) == Some(pos)
    requires IndexOf(content[pos..], "</script>", 0).None?
    ensures forall p: nat, q: nat :: !FirstScriptAt(content, p, q)
  {
    forall p: nat, q: nat | FirstScriptAt(content, p, q) ensures false {
      FirstAtUnique(content, "<script", 0, p, pos);
      OccursInSuffix(content, "</script>", pos, q - pos);
    }
  }

  /** The positions the code finds are the only ones that locate the first script element. */
  lemma FirstScript(content: string, pos: nat, end: nat)
    requires IndexOf(content, "<script", 0) == Some(pos)
    requires IndexOf(content[pos..], "</script>", 0) == Some(end)
    ensures FirstScriptAt(content, pos, pos + end)
    ensures pos + end + 9 <= |content|
    ensures forall p: nat, q: nat :: FirstScriptAt(content, p, q) ==> p == pos && q == pos + end
  {
    FirstAtInSuffix(content, "</script>", pos, end);
    forall p: nat, q: nat | FirstScriptAt(content, p, q) ensures p == pos && q == pos + end {
      FirstAtUnique(content, "<script", 0, p, pos);
      FirstAtUnique(content, "</script>", pos, q, pos + end);
    }
  }

  /** The script element starts `<s`. */
  lemma ScriptStart(content: string, pos: nat, end: nat)
    requires OccursAt(content, "<script", pos) && pos + end + 9 <= |content|
    ensures content[pos..][..end + 9][1] == 's'
  {
    assert content[pos..][..end + 9][1] == content[pos..pos + 7][1];
  }

  /** The code's test on the script element is `RowsWithoutTable`. */
  lemma ScriptTest(script: string)
    requires |script| >= 2 && script[1] == 's'
    ensures ScriptIsFragment(script) <==> RowsWithoutTable(script)
  {
    FoundIffContains(script, "<table");
    FoundIffContains(script, "<tr");
    FoundIffContains(script, "<td");
    NotAtStart(script, "<tr");
    NotAtStart(script, "<td");
  }

  lemma FirstAtUnique(s: string, pat: string, from: nat, i: nat, j: nat)
    requires FirstAt(s, pat, from, i) && FirstAt(s, pat, from, j)
    ensures i == j
  {
  }

  /** The first match in a suffix is the first match at or after the suffix's start. */
  lemma FirstAtInSuffix(s: string, pat: string, p: nat, j: nat)
    requires p <= |s| && FirstAt(s[p..], pat, 0, j)
    ensures FirstAt(s, pat, p, p + j)
  {
    OccursInSuffix(s, pat, p, j);
    forall k: nat | p <= k < p + j ensures !OccursAt(s, pat, k) {
      OccursInSuffix(s, pat, p, k - p);
    }
  }

  lemma FoundIffContains(s: string, pat: string)
    ensures IndexOf(s, pat, 0).Some? <==> Contains(s, pat)
  {
    if IndexOf(s, pat, 0).Some? {
      assert OccursAt(s, pat, IndexOf(s, pat, 0).value);
    }
  }

  /** A pattern starting `<t` cannot be found at the start of text starting `<s`. */
  lemma NotAtStart(s: string, pat: string)
    requires |s| >= 2 && s[1] == 's' && |pat| >= 2 && pat[1] == 't'
    ensures !OccursAt(s, pat, 0)
  {
  }
}
