/**
  Choosing the edge-list file out of the uploaded bundle
  (chains/network_analysis.py, lines 18-26).

  The bundle is the ordered sequence of (filename, content) pairs in the
  order the caller supplied them; the first filename that, lower-cased,
  contains "edges" and ends with ".csv" wins and every later match is ignored.
*/
module FileSelection {
  import opened Wrappers

  type Bundle = seq<(string, string)>

  /** Lower-casing of one character: ASCII upper-case letters only. */
  function LowerChar(c: char): char {
    if 'A' <= c <= 'Z' then (c as int + 32) as char else c
  }

  predicate IsUpper(c: char) {
    'A' <= c <= 'Z'
  }

  /**
    Python's `str.lower()`, restricted to the ASCII letters: no upper-case
    letter is left, and every character either stays or is an upper-case
    letter turned into its lower-case partner 32 code points on.
  */
  function Lower(s: string): (r: string)
    ensures |r| == |s|
    ensures forall i :: 0 <= i < |r| ==> !IsUpper(r[i])
    ensures forall i :: 0 <= i < |s| ==>
              r[i] == s[i] || (IsUpper(s[i]) && r[i] as int == s[i] as int + 32)
  {
    seq(|s|, i requires 0 <= i < |s| => LowerChar(s[i]))
  }

  /** `c` and `d` are the same character up to ASCII case. */
  predicate SameLetterIgnoringCase(c: char, d: char) {
    c == d || (IsUpper(c) && d as int == c as int + 32) || (IsUpper(d) && c as int == d as int + 32)
  }

  /** `s` and `t` are the same text up to ASCII case. */
  predicate SameIgnoringCase(s: string, t: string) {
    |s| == |t| && forall i :: 0 <= i < |s| ==> SameLetterIgnoringCase(s[i], t[i])
  }

  /** Text without upper-case letters is its own lower-case form. */
  lemma LowerKeepsCaseless(s: string)
    requires forall i :: 0 <= i < |s| ==> !IsUpper(s[i])
    ensures Lower(s) == s
  {
    forall i | 0 <= i < |s| ensures Lower(s)[i] == s[i] {
      assert !IsUpper(s[i]);
    }
  }

  /** Lower-casing twice is lower-casing once. */
  lemma LowerIdempotent(s: string)
    ensures Lower(Lower(s)) == Lower(s)
  {
    LowerKeepsCaseless(Lower(s));
  }

  /** Names that differ only in ASCII case lower-case to the same text. */
  lemma LowerIgnoresCase(s: string, t: string)
    requires SameIgnoringCase(s, t)
    ensures Lower(s) == Lower(t)
  {
    forall i | 0 <= i < |s| ensures Lower(s)[i] == Lower(t)[i] {
      assert SameLetterIgnoringCase(s[i], t[i]);
    }
  }

  /** `p` occurs in `s` starting at offset `k`. */
  predicate OccursAt(s: string, p: string, k: int) {
    0 <= k && k + |p| <= |s| && s[k..k + |p|] == p
  }

  /** Python's `p in s` for strings: `p` occurs in `s` at some offset. */
  function Contains(s: string, p: string): (b: bool)
    ensures b <==> exists k :: OccursAt(s, p, k)
  {
    if |s| < |p| then false
    else if s[..|p|] == p then assert OccursAt(s, p, 0); true
    else
      var b := Contains(s[1..], p);
      OccursAtTail(s, p);
      b
  }

  /** An occurrence past the first character is an occurrence in the tail. */
  lemma OccursAtTail(s: string, p: string)
    requires |s| >= 1 && !OccursAt(s, p, 0)
    ensures (exists k :: OccursAt(s, p, k)) <==> (exists k :: OccursAt(s[1..], p, k))
  {
    forall k | OccursAt(s, p, k) ensures OccursAt(s[1..], p, k - 1) {
      assert s[1..][k - 1..k - 1 + |p|] == s[k..k + |p|];
    }
    forall k | OccursAt(s[1..], p, k) ensures OccursAt(s, p, k + 1) {
      assert s[1..][k..k + |p|] == s[k + 1..k + 1 + |p|];
    }
  }

  /** Python's `s.endswith(p)`. */
  predicate EndsWith(s: string, p: string) {
    |p| <= |s| && s[|s| - |p|..] == p
  }

  /** The filename test of line 21. */
  predicate IsEdgesFileName(name: string) {
    Contains(Lower(name), "edges") && EndsWith(Lower(name), ".csv")
  }

  /** The filename test ignores ASCII case. */
  lemma EdgesFileNameIgnoresCase(s: string, t: string)
    requires SameIgnoringCase(s, t)
    ensures IsEdgesFileName(s) <==> IsEdgesFileName(t)
  {
    LowerIgnoresCase(s, t);
  }

  /** For instance `My_EDGES.Csv` is an edge-list name ... */
  lemma MixedCaseNameMatches()
    ensures IsEdgesFileName("My_EDGES.Csv")
  {
    assert Lower("My_EDGES.Csv") == "my_edges.csv";
    assert OccursAt("my_edges.csv", "edges", 3);
  }

  /** ... and `nodes.csv` is not. */
  lemma NodesFileDoesNotMatch()
    ensures !IsEdgesFileName("nodes.csv")
  {
    var name := "nodes.csv";
    LowerKeepsCaseless(name);
    forall k | 0 <= k < |name| ensures !OccursAt(name, "edges", k) {
      if k == 3 {
        assert name[4] != 'd';
      } else {
        assert name[k] != 'e';
      }
    }
  }

  /** The content of the first matching file, if any: the specification of the search. */
  function SelectedContent(files: Bundle): Option<string> {
    if files == [] then None
    else if IsEdgesFileName(files[0].0) then Some(files[0].1)
    else SelectedContent(files[1..])
  }

  /** `i` is the position of the first matching filename. */
  predicate IsFirstMatch(files: Bundle, i: int) {
    0 <= i < |files| && IsEdgesFileName(files[i].0) &&
    forall j :: 0 <= j < i ==> !IsEdgesFileName(files[j].0)
  }

  /** The selected content is that of the first matching file; nothing is
      selected exactly when no filename matches. */
  lemma {:induction false} SelectedIsFirstMatch(files: Bundle)
    ensures SelectedContent(files) == None <==>
              forall j :: 0 <= j < |files| ==> !IsEdgesFileName(files[j].0)
    ensures SelectedContent(files).Some? ==>
              exists i :: IsFirstMatch(files, i) && SelectedContent(files).value == files[i].1
  {
    if files != [] && !IsEdgesFileName(files[0].0) {
      var rest := files[1..];
      SelectedIsFirstMatch(rest);
      assert forall j :: 1 <= j < |files| ==> files[j] == rest[j - 1];
      if SelectedContent(rest).Some? {
        var i :| IsFirstMatch(rest, i) && SelectedContent(rest).value == rest[i].1;
        assert IsFirstMatch(files, i + 1);
      }
    } else if files != [] {
      assert IsFirstMatch(files, 0);
    }
  }

  /** The search loop of lines 19-23: stops at the first match. */
  method FindEdgesContent(files: Bundle) returns (content: Option<string>)
    ensures content == SelectedContent(files)
    ensures content == None <==> forall j :: 0 <= j < |files| ==> !IsEdgesFileName(files[j].0)
    ensures content.Some? ==> exists i :: IsFirstMatch(files, i) && content.value == files[i].1
  {
    content := None;
    var i := 0;
    while i < |files|
      invariant 0 <= i <= |files|
      invariant SelectedContent(files[i..]) == SelectedContent(files)
    {
      var (filename, data) := files[i];
      if IsEdgesFileName(filename) {
        content := Some(data);
        break;
      }
      assert files[i..][1..] == files[i + 1..];
      i := i + 1;
    }
    SelectedIsFirstMatch(files);
  }
}
