/**
 * The JavaScript string operations the front end relies on, over `string`
 * (a sequence of Unicode scalar values): the `\s` character class, `trim`,
 * global replacement of a character-class run, `split(...)` followed by the
 * first or the last element, `includes` and `join`.
 */
module Text {
  import opened Lists

  /** The characters matched by the regular-expression class `\s`; `trim` strips the same set. */
  predicate IsWhitespace(c: char)
  {
    c == ' ' || c == '\t' || c == '\n' || c == '\r' || c == '\U{000B}' || c == '\U{000C}'
    || c == '\U{00A0}' || c == '\U{1680}' || ('\U{2000}' <= c <= '\U{200A}')
    || c == '\U{2028}' || c == '\U{2029}' || c == '\U{202F}' || c == '\U{205F}'
    || c == '\U{3000}' || c == '\U{FEFF}'
  }

  /** No character of `s` satisfies `p`. */
  predicate NoneSatisfy(s: string, p: char -> bool)
  {
    forall i :: 0 <= i < |s| ==> !p(s[i])
  }

  /** `s` with its leading characters satisfying `p` removed. */
  function DropWhile(s: string, p: char -> bool): (r: string)
    ensures |r| <= |s| && r == s[|s| - |r|..]
    ensures r == [] || !p(r[0])
    ensures forall i :: 0 <= i < |s| - |r| ==> p(s[i])
  {
    if s == [] || !p(s[0]) then s else DropWhile(s[1..], p)
  }

  /** `s` with its trailing characters satisfying `p` removed. */
  function DropWhileEnd(s: string, p: char -> bool): (r: string)
    ensures |r| <= |s| && r == s[..|r|]
    ensures r == [] || !p(r[|r| - 1])
    ensures forall i :: |r| <= i < |s| ==> p(s[i])
  {
    if s == [] || !p(s[|s| - 1]) then s else DropWhileEnd(s[..|s| - 1], p)
  }

  /** `s` with its leading and its trailing characters satisfying `p` removed. */
  function Strip(s: string, p: char -> bool): (r: string)
    ensures |r| <= |s|
    ensures r == [] || (!p(r[0]) && !p(r[|r| - 1]))
    ensures NoneSatisfy(s, p) ==> r == s
  {
    DropWhileEnd(DropWhile(s, p), p)
  }

  /**
   * `s` is the stripped string between a leading and a trailing run of
   * characters satisfying `p`.
   */
  lemma StripSlice(s: string, p: char -> bool) returns (lead: string, tail: string)
    ensures s == lead + Strip(s, p) + tail
    ensures AllSatisfy(lead, p) && AllSatisfy(tail, p)
  {
    lead := DropWhileLead(s, p);
    var d := DropWhile(s, p);
    tail := DropWhileEndRest(d, p);
    AppendAssoc(lead, DropWhileEnd(d, p), tail);
  }

  /** `String.prototype.trim`: `s` without its leading and its trailing whitespace. */
  function Trim(s: string): (r: string)
    ensures |r| <= |s|
    ensures r == [] || (!IsWhitespace(r[0]) && !IsWhitespace(r[|r| - 1]))
    ensures NoneSatisfy(s, IsWhitespace) ==> r == s
  {
    Strip(s, IsWhitespace)
  }

  /** `s` is its trimmed text between a leading and a trailing run of whitespace. */
  lemma TrimSlice(s: string) returns (lead: string, tail: string)
    ensures s == lead + Trim(s) + tail
    ensures AllSatisfy(lead, IsWhitespace) && AllSatisfy(tail, IsWhitespace)
  {
    lead, tail := StripSlice(s, IsWhitespace);
  }

  /** Trimming gives the empty string exactly when every character is whitespace. */
  lemma TrimEmpty(s: string)
    ensures Trim(s) == [] <==> forall i :: 0 <= i < |s| ==> IsWhitespace(s[i])
  {
    var t := DropWhile(s, IsWhitespace);
    if Trim(s) == [] {
      assert t == [];
    }
  }

  /**
   * `s.replace(/[run]+/g, rep)`: every maximal run of characters satisfying
   * `p` becomes one copy of `rep`; every other character is kept.
   */
  function ReplaceRuns(s: string, p: char -> bool, rep: string): (r: string)
    ensures s == [] ==> r == []
    ensures s != [] && rep != [] ==> r != []
    ensures s != [] && !p(s[0]) ==> r != [] && r[0] == s[0]
    decreases |s|
  {
    if s == [] then []
    else if p(s[0]) then rep + ReplaceRuns(DropWhile(s, p), p, rep)
    else [s[0]] + ReplaceRuns(s[1..], p, rep)
  }

  /**
   * The characters of `s` that do not satisfy `p`, in order (`s.replace(/[class]/g, "")`).
   * With `RemoveAllAppend` this determines the result: one character is kept
   * exactly when it does not satisfy `p`, and a concatenation is filtered part by part.
   */
  function RemoveAll(s: string, p: char -> bool): (r: string)
    ensures |r| <= |s|
    ensures |s| == 1 ==> r == (if p(s[0]) then [] else s)
    ensures NoneSatisfy(r, p)
    ensures forall i :: 0 <= i < |s| && !p(s[i]) ==> s[i] in r
    ensures forall c :: c in r ==> c in s
  {
    if s == [] then [] else (if p(s[0]) then [] else [s[0]]) + RemoveAll(s[1..], p)
  }

  /** The part of `s` before its first character satisfying `p` (`s.split(sep)[0]`). */
  function BeforeFirst(s: string, p: char -> bool): (r: string)
    ensures |r| <= |s| && r == s[..|r|]
    ensures NoneSatisfy(r, p)
    ensures |r| == |s| || p(s[|r|])
  {
    if s == [] || p(s[0]) then [] else [s[0]] + BeforeFirst(s[1..], p)
  }

  /**
   * The part of `s` after its last character satisfying `p`, or all of `s`
   * when there is none (`s.split(sep)` followed by its last element).
   */
  function AfterLast(s: string, p: char -> bool): (r: string)
    ensures |r| <= |s| && r == s[|s| - |r|..]
    ensures NoneSatisfy(r, p)
    ensures |r| == |s| || p(s[|s| - |r| - 1])
  {
    if s == [] || p(s[|s| - 1]) then [] else AfterLast(s[..|s| - 1], p) + [s[|s| - 1]]
  }

  /** `s.includes(sub)`. */
  predicate Contains(s: string, sub: string)
    decreases |s|
  {
    sub <= s || (s != [] && Contains(s[1..], sub))
  }

  /** `parts.join(sep)`. */
  function Join(parts: seq<string>, sep: string): (r: string)
    ensures parts == [] ==> r == []
    ensures |parts| == 1 ==> r == parts[0]
  {
    if parts == [] then []
    else if |parts| == 1 then parts[0]
    else parts[0] + sep + Join(parts[1..], sep)
  }

  /** Joining one more part adds the separator and that part. */
  lemma {:induction false} JoinSnoc(parts: seq<string>, q: string, sep: string)
    requires parts != []
    ensures Join(parts + [q], sep) == Join(parts, sep) + sep + q
    decreases |parts|
  {
    if |parts| == 1 {
      assert (parts + [q])[1..] == [q];
    } else {
      JoinSnoc(parts[1..], q, sep);
      assert (parts + [q])[1..] == parts[1..] + [q];
    }
  }

  /** A joined string begins with the first part and ends with the last one. */
  lemma {:induction false} JoinEnds(parts: seq<string>, sep: string)
    requires parts != []
    ensures parts[0] <= Join(parts, sep)
    ensures |parts[|parts| - 1]| <= |Join(parts, sep)|
    ensures Join(parts, sep)[|Join(parts, sep)| - |parts[|parts| - 1]|..] == parts[|parts| - 1]
  {
    if |parts| > 1 {
      JoinEnds(parts[1..], sep);
      var rest := Join(parts[1..], sep);
      assert Join(parts, sep) == (parts[0] + sep) + rest;
    }
  }

  /** A character outside the class survives the replacement of runs. */
  lemma {:induction false} ReplaceRunsKeeps(s: string, p: char -> bool, rep: string, k: nat)
    requires k < |s| && !p(s[k])
    ensures exists j :: 0 <= j < |ReplaceRuns(s, p, rep)| && !p(ReplaceRuns(s, p, rep)[j])
    decreases |s|
  {
    var r := ReplaceRuns(s, p, rep);
    if !p(s[0]) {
      assert r[0] == s[0];
    } else {
      var d := DropWhile(s, p);
      var n := |s| - |d|;
      assert k >= n;
      assert d[k - n] == s[k];
      ReplaceRunsKeeps(d, p, rep, k - n);
      var rd := ReplaceRuns(d, p, rep);
      var j :| 0 <= j < |rd| && !p(rd[j]);
      assert r == rep + rd;
      assert r[|rep| + j] == rd[j];
    }
  }

  /** A run replacement whose replacement avoids `p` leaves no character satisfying `p`. */
  lemma {:induction false} ReplaceRunsAvoids(s: string, p: char -> bool, rep: string)
    requires NoneSatisfy(rep, p)
    ensures NoneSatisfy(ReplaceRuns(s, p, rep), p)
    decreases |s|
  {
    if s != [] {
      if p(s[0]) {
        ReplaceRunsAvoids(DropWhile(s, p), p, rep);
        var tail := ReplaceRuns(DropWhile(s, p), p, rep);
        assert forall i :: |rep| <= i < |rep + tail| ==> (rep + tail)[i] == tail[i - |rep|];
      } else {
        ReplaceRunsAvoids(s[1..], p, rep);
        var tail := ReplaceRuns(s[1..], p, rep);
        assert forall i :: 1 <= i < |[s[0]] + tail| ==> ([s[0]] + tail)[i] == tail[i - 1];
      }
    }
  }

  /** A string without runs to replace is left as it is. */
  lemma {:induction false} ReplaceRunsNoRuns(s: string, p: char -> bool, rep: string)
    requires NoneSatisfy(s, p)
    ensures ReplaceRuns(s, p, rep) == s
    decreases |s|
  {
    if s != [] {
      assert NoneSatisfy(s[1..], p) by {
        forall i | 0 <= i < |s[1..]| ensures !p(s[1..][i]) { assert s[1..][i] == s[i + 1]; }
      }
      ReplaceRunsNoRuns(s[1..], p, rep);
      assert s == [s[0]] + s[1..];
    }
  }

  /**
   * Whitespace appears only as single spaces: every whitespace character is
   * ' ' and no two whitespace characters are adjacent.
   */
  predicate Collapsed(s: string)
  {
    (forall i :: 0 <= i < |s| && IsWhitespace(s[i]) ==> s[i] == ' ')
    && (forall i :: 0 <= i < |s| - 1 && IsWhitespace(s[i]) ==> !IsWhitespace(s[i + 1]))
  }

  /** `s.replace(/\s+/g, ' ')` leaves whitespace only as single spaces. */
  lemma {:induction false} ReplaceRunsCollapses(s: string)
    ensures Collapsed(ReplaceRuns(s, IsWhitespace, " "))
    decreases |s|
  {
    if s != [] {
      if IsWhitespace(s[0]) {
        var d := DropWhile(s, IsWhitespace);
        ReplaceRunsCollapses(d);
        var tail := ReplaceRuns(d, IsWhitespace, " ");
        assert ReplaceRuns(s, IsWhitespace, " ") == [' '] + tail;
        CollapsedCons(' ', tail);
      } else {
        ReplaceRunsCollapses(s[1..]);
        var tail := ReplaceRuns(s[1..], IsWhitespace, " ");
        assert ReplaceRuns(s, IsWhitespace, " ") == [s[0]] + tail;
        CollapsedCons(s[0], tail);
      }
    }
  }

  /** A character in front of a collapsed string keeps it collapsed unless it makes a run or is not a space. */
  lemma CollapsedCons(c: char, t: string)
    requires Collapsed(t)
    requires IsWhitespace(c) ==> c == ' ' && (t == [] || !IsWhitespace(t[0]))
    ensures Collapsed([c] + t)
  {
    var x := [c] + t;
    assert forall i :: 1 <= i < |x| ==> x[i] == t[i - 1];
  }

  /** Any slice of a collapsed string is collapsed. */
  lemma CollapsedSlice(s: string, lo: nat, hi: nat)
    requires Collapsed(s) && lo <= hi <= |s|
    ensures Collapsed(s[lo..hi])
  {
    var t := s[lo..hi];
    forall i | 0 <= i < |t| && IsWhitespace(t[i]) ensures t[i] == ' ' {
      assert t[i] == s[lo + i];
    }
    forall i | 0 <= i < |t| - 1 && IsWhitespace(t[i]) ensures !IsWhitespace(t[i + 1]) {
      assert t[i] == s[lo + i] && t[i + 1] == s[lo + i + 1];
    }
  }

  /** Trimming keeps whitespace collapsed, since it only cuts off both ends. */
  lemma TrimKeepsCollapsed(s: string)
    requires Collapsed(s)
    ensures Collapsed(Trim(s))
  {
    var d := DropWhile(s, IsWhitespace);
    CollapsedSlice(s, |s| - |d|, |s|);
    CollapsedSlice(d, 0, |DropWhileEnd(d, IsWhitespace)|);
  }

  /** Removing the characters satisfying `p` twice removes no more than once. */
  lemma {:induction false} RemoveAllIdempotent(s: string, p: char -> bool)
    ensures RemoveAll(RemoveAll(s, p), p) == RemoveAll(s, p)
  {
    RemoveAllNone(RemoveAll(s, p), p);
  }

  /** A string with nothing to remove is left as it is. */
  lemma {:induction false} RemoveAllNone(s: string, p: char -> bool)
    requires NoneSatisfy(s, p)
    ensures RemoveAll(s, p) == s
  {
    if s != [] {
      assert NoneSatisfy(s[1..], p) by {
        forall i | 0 <= i < |s[1..]| ensures !p(s[1..][i]) { assert s[1..][i] == s[i + 1]; }
      }
      RemoveAllNone(s[1..], p);
      assert s == [s[0]] + s[1..];
    }
  }

  /**
   * After a separator, `split(sep)` followed by its last element gives the
   * text after that separator when the text has no separator of its own.
   */
  lemma {:induction false} AfterLastSeparator(s: string, p: char -> bool, e: string)
    requires s != [] && p(s[|s| - 1])
    requires NoneSatisfy(e, p)
    ensures AfterLast(s + e, p) == e
    decreases |e|
  {
    if e == [] {
      assert s + e == s;
    } else {
      var init := e[..|e| - 1];
      assert NoneSatisfy(init, p) by {
        forall i | 0 <= i < |init| ensures !p(init[i]) { assert init[i] == e[i]; }
      }
      AfterLastSeparator(s, p, init);
      assert (s + e)[..|s + e| - 1] == s + init;
      assert init + [e[|e| - 1]] == e;
    }
  }

  /** `(a + sub + b).includes(sub)`. */
  lemma {:induction false} ContainsWithin(a: string, sub: string, b: string)
    ensures Contains(a + sub + b, sub)
    decreases |a|
  {
    if a == [] {
      assert a + sub + b == sub + b;
    } else {
      ContainsWithin(a[1..], sub, b);
      assert (a + sub + b)[1..] == a[1..] + sub + b;
    }
  }

  /** The part before the first separator is the text up to that separator. */
  lemma {:induction false} BeforeFirstSeparator(a: string, c: char, b: string, p: char -> bool)
    requires NoneSatisfy(a, p) && p(c)
    ensures BeforeFirst(a + [c] + b, p) == a
    decreases |a|
  {
    if a == [] {
      assert (a + [c] + b)[0] == c;
    } else {
      assert NoneSatisfy(a[1..], p) by {
        forall i | 0 <= i < |a[1..]| ensures !p(a[1..][i]) { assert a[1..][i] == a[i + 1]; }
      }
      BeforeFirstSeparator(a[1..], c, b, p);
      assert (a + [c] + b)[1..] == a[1..] + [c] + b;
      assert a == [a[0]] + a[1..];
    }
  }

  /** Every character of `s` satisfies `p`. */
  predicate AllSatisfy(s: string, p: char -> bool)
  {
    forall i :: 0 <= i < |s| ==> p(s[i])
  }

  lemma AllSatisfyTail(s: string, p: char -> bool)
    requires s != []
    ensures AllSatisfy(s, p) <==> p(s[0]) && AllSatisfy(s[1..], p)
  {
    assert forall i :: 0 <= i < |s[1..]| ==> s[1..][i] == s[i + 1];
  }

  /** A prefix made only of `p` characters is dropped whole. */
  lemma {:induction false} DropWhileAcross(a: string, b: string, p: char -> bool)
    requires AllSatisfy(a, p)
    ensures DropWhile(a + b, p) == DropWhile(b, p)
    decreases |a|
  {
    if a == [] {
      assert a + b == b;
    } else {
      AllSatisfyTail(a, p);
      assert (a + b)[0] == a[0];
      assert (a + b)[1..] == a[1..] + b;
      DropWhileAcross(a[1..], b, p);
    }
  }

  /** Dropping stops inside a prefix that holds a character not satisfying `p`. */
  lemma {:induction false} DropWhileWithin(a: string, b: string, p: char -> bool)
    requires !AllSatisfy(a, p)
    ensures DropWhile(a + b, p) == DropWhile(a, p) + b
    decreases |a|
  {
    AllSatisfyTail(a, p);
    assert (a + b)[0] == a[0];
    if p(a[0]) {
      assert (a + b)[1..] == a[1..] + b;
      DropWhileWithin(a[1..], b, p);
    }
  }

  /** What is left after dropping from a string that is not all `p` ends as that string does. */
  lemma DropWhileKeepsLast(a: string, p: char -> bool)
    requires !AllSatisfy(a, p)
    ensures var d := DropWhile(a, p); d != [] && d[|d| - 1] == a[|a| - 1]
  {
    var d := DropWhile(a, p);
    assert d == a[|a| - |d|..];
  }

  /** A suffix made only of `p` characters is dropped whole from the end. */
  lemma {:induction false} DropWhileEndAcross(a: string, b: string, p: char -> bool)
    requires AllSatisfy(b, p)
    ensures DropWhileEnd(a + b, p) == DropWhileEnd(a, p)
    decreases |b|
  {
    if b == [] {
      assert a + b == a;
    } else {
      var init := b[..|b| - 1];
      assert AllSatisfy(init, p) by {
        assert forall i :: 0 <= i < |init| ==> init[i] == b[i];
      }
      assert (a + b)[|a + b| - 1] == b[|b| - 1];
      assert (a + b)[..|a + b| - 1] == a + init;
      DropWhileEndAcross(a, init, p);
    }
  }

  /**
   * A run replacement splits at a cut that does not fall inside a run: where
   * one side is empty, or a character next to the cut does not satisfy `p`.
   * With `ReplaceRunsRun` and `ReplaceRunsNoRuns` this determines
   * `ReplaceRuns`: each maximal run becomes one `rep`, and every other
   * character is kept in order.
   */
  lemma {:induction false} ReplaceRunsSplit(a: string, b: string, p: char -> bool, rep: string)
    requires a == [] || b == [] || !p(a[|a| - 1]) || !p(b[0])
    ensures ReplaceRuns(a + b, p, rep) == ReplaceRuns(a, p, rep) + ReplaceRuns(b, p, rep)
    decreases |a|, 1
  {
    if a == [] {
      assert a + b == b;
    } else if b == [] {
      assert a + b == a;
    } else if !p(a[0]) {
      ReplaceRunsSplitKept(a, b, p, rep);
    } else if AllSatisfy(a, p) {
      assert (a + b)[0] == a[0];
      DropWhileAcross(a, b, p);
      ReplaceRunsRun(a, p, rep);
      assert DropWhile(b, p) == b;
    } else {
      ReplaceRunsSplitRun(a, b, p, rep);
    }
  }

  /** `ReplaceRunsSplit` when `a` starts with a kept character. */
  lemma {:induction false} ReplaceRunsSplitKept(a: string, b: string, p: char -> bool, rep: string)
    requires a != [] && !p(a[0]) && (b == [] || !p(a[|a| - 1]) || !p(b[0]))
    ensures ReplaceRuns(a + b, p, rep) == ReplaceRuns(a, p, rep) + ReplaceRuns(b, p, rep)
    decreases |a|, 0
  {
    assert (a + b)[0] == a[0];
    assert (a + b)[1..] == a[1..] + b;
    ReplaceRunsSplit(a[1..], b, p, rep);
    AppendAssoc([a[0]], ReplaceRuns(a[1..], p, rep), ReplaceRuns(b, p, rep));
  }

  /** `ReplaceRunsSplit` when `a` starts with a run that ends inside `a`. */
  lemma {:induction false} ReplaceRunsSplitRun(a: string, b: string, p: char -> bool, rep: string)
    requires a != [] && p(a[0]) && !AllSatisfy(a, p) && (b == [] || !p(a[|a| - 1]) || !p(b[0]))
    ensures ReplaceRuns(a + b, p, rep) == ReplaceRuns(a, p, rep) + ReplaceRuns(b, p, rep)
    decreases |a|, 0
  {
    assert (a + b)[0] == a[0];
    DropWhileWithin(a, b, p);
    DropWhileKeepsLast(a, p);
    var d := DropWhile(a, p);
    assert ReplaceRuns(a + b, p, rep) == rep + ReplaceRuns(d + b, p, rep);
    assert ReplaceRuns(a, p, rep) == rep + ReplaceRuns(d, p, rep);
    ReplaceRunsSplit(d, b, p, rep);
    AppendAssoc(rep, ReplaceRuns(d, p, rep), ReplaceRuns(b, p, rep));
  }

  /** A non-empty run becomes a single copy of the replacement. */
  lemma ReplaceRunsRun(s: string, p: char -> bool, rep: string)
    requires s != [] && AllSatisfy(s, p)
    ensures ReplaceRuns(s, p, rep) == rep
  {
    DropWhileAcross(s, [], p);
    assert s + [] == s;
  }

  /** A string that starts with a kept character keeps the text up to its first run. */
  lemma ReplaceRunsField(s: string, p: char -> bool, rep: string)
    requires s != [] && !p(s[0])
    ensures var w := BeforeFirst(s, p);
      ReplaceRuns(s, p, rep) == w + ReplaceRuns(s[|w|..], p, rep)
  {
    var w := BeforeFirst(s, p);
    assert |w| == |s| || p(s[|w|]);
    assert s == w + s[|w|..];
    ReplaceRunsSplit(w, s[|w|..], p, rep);
    ReplaceRunsNoRuns(w, p, rep);
  }

  /** Removing characters works part by part. */
  lemma {:induction false} RemoveAllAppend(a: string, b: string, p: char -> bool)
    ensures RemoveAll(a + b, p) == RemoveAll(a, p) + RemoveAll(b, p)
    decreases |a|
  {
    if a == [] {
      assert a + b == b;
    } else {
      assert (a + b)[0] == a[0];
      assert (a + b)[1..] == a[1..] + b;
      RemoveAllAppend(a[1..], b, p);
      AppendAssoc(if p(a[0]) then [] else [a[0]], RemoveAll(a[1..], p), RemoveAll(b, p));
    }
  }

  /**
   * The fields of `s`: its maximal runs of characters not satisfying `p`, in
   * order. For whitespace these are the words, what `s.split(/\s+/)` gives
   * without the empty parts that leading or trailing whitespace leaves.
   */
  function Fields(s: string, p: char -> bool): (r: seq<string>)
    ensures forall i :: 0 <= i < |r| ==> r[i] != [] && NoneSatisfy(r[i], p)
    decreases |s|
  {
    if s == [] then []
    else if p(s[0]) then Fields(s[1..], p)
    else
      var w := BeforeFirst(s, p);
      assert |w| == |s| || p(s[|w|]);
      var rest := Fields(s[|w|..], p);
      assert forall i :: 1 <= i < |[w] + rest| ==> ([w] + rest)[i] == rest[i - 1];
      [w] + rest
  }

  /** The words of `s`: its maximal runs of characters that are not whitespace. */
  function Words(s: string): seq<string>
  {
    Fields(s, IsWhitespace)
  }

  /** A string made only of separators has no fields. */
  lemma {:induction false} FieldsNone(s: string, p: char -> bool)
    requires AllSatisfy(s, p)
    ensures Fields(s, p) == []
    decreases |s|
  {
    if s != [] {
      AllSatisfyTail(s, p);
      FieldsNone(s[1..], p);
    }
  }

  /** A non-empty string without separators is one field. */
  lemma FieldsOne(w: string, p: char -> bool)
    requires w != [] && NoneSatisfy(w, p)
    ensures Fields(w, p) == [w]
  {
    assert BeforeFirst(w, p) == w;
    assert w[|w|..] == [];
  }

  /** Leading separators do not change the fields. */
  lemma {:induction false} FieldsDropWhile(s: string, p: char -> bool)
    ensures Fields(DropWhile(s, p), p) == Fields(s, p)
    decreases |s|
  {
    if s != [] && p(s[0]) {
      FieldsDropWhile(s[1..], p);
    }
  }

  /** The fields of `a + b` are those of `a`, then those of `b`, when the cut does not split a field. */
  lemma {:induction false} FieldsAppend(a: string, b: string, p: char -> bool)
    requires a == [] || b == [] || p(a[|a| - 1]) || p(b[0])
    ensures Fields(a + b, p) == Fields(a, p) + Fields(b, p)
    decreases |a|, 1
  {
    if a == [] {
      assert a + b == b;
    } else if b == [] {
      assert a + b == a;
    } else if p(a[0]) {
      assert (a + b)[0] == a[0];
      assert (a + b)[1..] == a[1..] + b;
      FieldsAppend(a[1..], b, p);
    } else {
      FieldsAppendField(a, b, p);
    }
  }

  /** `FieldsAppend` when `a` starts with a field. */
  lemma {:induction false} FieldsAppendField(a: string, b: string, p: char -> bool)
    requires a != [] && b != [] && !p(a[0]) && (p(a[|a| - 1]) || p(b[0]))
    ensures Fields(a + b, p) == Fields(a, p) + Fields(b, p)
    decreases |a|, 0
  {
    var w := FieldsUnfold(a, p);
    var r := a[|w|..];
    var t := r + b;
    assert t != [] && p(t[0]) by {
      if r == [] {
        assert a == w && t == b;
        assert !p(w[|w| - 1]);
      } else {
        assert t[0] == a[|w|];
      }
    }
    assert r != [] ==> r[|r| - 1] == a[|a| - 1];
    assert a + b == w + [t[0]] + t[1..];
    BeforeFirstSeparator(w, t[0], t[1..], p);
    assert (a + b)[0] == a[0];
    var w' := FieldsUnfold(a + b, p);
    assert (a + b)[|w|..] == t;
    FieldsAppend(r, b, p);
    AppendAssoc([w], Fields(r, p), Fields(b, p));
  }

  /** A string that starts with a field: that field, then the fields after it. */
  lemma FieldsUnfold(s: string, p: char -> bool) returns (w: string)
    requires s != [] && !p(s[0])
    ensures w == BeforeFirst(s, p) && |w| <= |s|
    ensures Fields(s, p) == [w] + Fields(s[|w|..], p)
  {
    w := BeforeFirst(s, p);
  }

  /** The fields of `s` joined by any separator start and end with a character that is not a separator. */
  lemma JoinFieldsEnds(s: string, sep: string, p: char -> bool)
    ensures var j := Join(Fields(s, p), sep); j == [] || (!p(j[0]) && !p(j[|j| - 1]))
  {
    var parts := Fields(s, p);
    if parts != [] {
      JoinEnds(parts, sep);
      var j := Join(parts, sep);
      var last := parts[|parts| - 1];
      assert j[0] == parts[0][0];
      assert j[|j| - 1] == j[|j| - |last|..][|last| - 1] == last[|last| - 1];
    }
  }

  /**
   * Replacing the runs of a string that starts with a field puts `rep`
   * between consecutive fields, and once more at the end when the string
   * ends with a run.
   */
  lemma {:induction false} ReplaceRunsFields(s: string, p: char -> bool, rep: string)
    requires s == [] || !p(s[0])
    ensures ReplaceRuns(s, p, rep) ==
      Join(Fields(s, p), rep) + (if s != [] && p(s[|s| - 1]) then rep else [])
    decreases |s|, 1
  {
    if s != [] {
      var w := BeforeFirst(s, p);
      if |w| == |s| {
        assert w == s;
        ReplaceRunsNoRuns(s, p, rep);
        FieldsOne(s, p);
        assert !p(s[|s| - 1]);
      } else {
        ReplaceRunsFieldsRest(s, p, rep);
      }
    }
  }

  /** `ReplaceRunsFields` for a string whose first field is followed by a run. */
  lemma {:induction false} ReplaceRunsFieldsRest(s: string, p: char -> bool, rep: string)
    requires s != [] && !p(s[0]) && |BeforeFirst(s, p)| < |s|
    ensures ReplaceRuns(s, p, rep) ==
      Join(Fields(s, p), rep) + (if p(s[|s| - 1]) then rep else [])
    decreases |s|, 0
  {
    var w, t := FieldThenRun(s, p, rep);
    if t == [] {
      assert Join([w], rep) == w;
    } else {
      ReplaceRunsFields(t, p, rep);
      ReplaceRunsFieldsStep(w, t, p, rep);
    }
  }

  /**
   * A string whose first field `w` is followed by a run is `w`, the run and
   * a rest `t` that is empty or starts with a kept character.
   */
  lemma FieldThenRun(s: string, p: char -> bool, rep: string) returns (w: string, t: string)
    requires s != [] && !p(s[0]) && |BeforeFirst(s, p)| < |s|
    ensures w == BeforeFirst(s, p) && |t| < |s| && (t == [] || !p(t[0]))
    ensures ReplaceRuns(s, p, rep) == w + (rep + ReplaceRuns(t, p, rep))
    ensures Fields(s, p) == [w] + Fields(t, p)
    ensures t == [] ==> p(s[|s| - 1]) && ReplaceRuns(t, p, rep) == [] && Fields(t, p) == []
    ensures t != [] ==> t[|t| - 1] == s[|s| - 1]
  {
    w := BeforeFirst(s, p);
    var rest := s[|w|..];
    ReplaceRunsField(s, p, rep);
    assert p(s[|w|]) && rest[0] == s[|w|];
    assert Fields(s, p) == [w] + Fields(rest, p);
    assert s[|s| - 1] == rest[|rest| - 1];
    t := DropWhile(rest, p);
    FieldsDropWhile(rest, p);
    assert ReplaceRuns(rest, p, rep) == rep + ReplaceRuns(t, p, rep);
    if t != [] {
      assert t == rest[|rest| - |t|..];
    }
  }

  /** The inductive step of `ReplaceRunsFields`: a field, a run, then the rest. */
  lemma ReplaceRunsFieldsStep(w: string, t: string, p: char -> bool, rep: string)
    requires t != [] && !p(t[0])
    ensures var e: string := if p(t[|t| - 1]) then rep else [];
      w + (rep + (Join(Fields(t, p), rep) + e)) == Join([w] + Fields(t, p), rep) + e
  {
    var f := Fields(t, p);
    assert f == [BeforeFirst(t, p)] + Fields(t[|BeforeFirst(t, p)|..], p);
    assert ([w] + f)[1..] == f;
    var e: string := if p(t[|t| - 1]) then rep else [];
    AppendAssoc(rep, Join(f, rep), e);
    AppendAssoc(w, rep + Join(f, rep), e);
    AppendAssoc(w, rep, Join(f, rep));
  }

  /** Stripping leading and trailing separators around a stripped core gives that core. */
  lemma StripPadded(a: string, m: string, b: string, p: char -> bool)
    requires AllSatisfy(a, p) && AllSatisfy(b, p)
    requires m == [] || (!p(m[0]) && !p(m[|m| - 1]))
    ensures Strip(a + m + b, p) == m
  {
    assert a + m + b == a + (m + b);
    DropWhileAcross(a, m + b, p);
    if m == [] {
      assert m + b == b;
      DropWhileAcross(b, [], p);
      assert b + [] == b;
    } else {
      assert (m + b)[0] == m[0];
      DropWhileEndAcross(m, b, p);
    }
  }

  /** Stripping separators keeps the fields. */
  lemma StripFields(s: string, p: char -> bool)
    ensures Fields(Strip(s, p), p) == Fields(s, p)
  {
    var d := DropWhile(s, p);
    var r := DropWhileEnd(d, p);
    FieldsDropWhile(s, p);
    var tail := DropWhileEndRest(d, p);
    FieldsAppend(r, tail, p);
    FieldsNone(tail, p);
    assert Fields(r, p) + [] == Fields(r, p);
  }

  /** What `DropWhileEnd` cuts off is a run of `p` characters. */
  lemma DropWhileEndRest(d: string, p: char -> bool) returns (tail: string)
    ensures d == DropWhileEnd(d, p) + tail && AllSatisfy(tail, p)
  {
    var r := DropWhileEnd(d, p);
    tail := d[|r|..];
    assert forall i :: 0 <= i < |tail| ==> tail[i] == d[|r| + i];
  }

  /** What `DropWhile` cuts off is a run of `p` characters. */
  lemma DropWhileLead(s: string, p: char -> bool) returns (lead: string)
    ensures s == lead + DropWhile(s, p) && AllSatisfy(lead, p)
  {
    var d := DropWhile(s, p);
    lead := s[..|s| - |d|];
    assert s == lead + s[|lead|..];
    assert forall i :: 0 <= i < |lead| ==> lead[i] == s[i];
  }

  /**
   * Replacing every run by a separator string and stripping the ends gives
   * the fields joined by that string (`s.replace(/\s+/g, ' ').trim()` for
   * whitespace and a space).
   */
  lemma CollapseFields(s: string, p: char -> bool, rep: string)
    requires AllSatisfy(rep, p)
    ensures Strip(ReplaceRuns(s, p, rep), p) == Join(Fields(s, p), rep)
  {
    var lead, trail := ReplaceRunsShape(s, p, rep);
    JoinFieldsEnds(s, rep, p);
    StripPadded(lead, Join(Fields(s, p), rep), trail, p);
  }

  /** A run replacement is the joined fields between at most one leading and one trailing `rep`. */
  lemma ReplaceRunsShape(s: string, p: char -> bool, rep: string) returns (lead: string, trail: string)
    requires AllSatisfy(rep, p)
    ensures ReplaceRuns(s, p, rep) == lead + Join(Fields(s, p), rep) + trail
    ensures AllSatisfy(lead, p) && AllSatisfy(trail, p)
  {
    var d := DropWhile(s, p);
    var g := DropWhileLead(s, p);
    lead := ReplaceRuns(g, p, rep);
    trail := if d != [] && p(d[|d| - 1]) then rep else [];
    var joined := Join(Fields(d, p), rep);
    ReplaceRunsSplit(g, d, p, rep);
    ReplaceRunsFields(d, p, rep);
    AppendAssoc(lead, joined, trail);
    if g != [] {
      ReplaceRunsRun(g, p, rep);
    }
    FieldsDropWhile(s, p);
  }

  /** Stripping and then replacing the runs gives the fields joined by the replacement. */
  lemma StripReplaceFields(s: string, p: char -> bool, rep: string)
    ensures ReplaceRuns(Strip(s, p), p, rep) == Join(Fields(s, p), rep)
  {
    var t := Strip(s, p);
    assert ReplaceRuns(t, p, rep) == Join(Fields(t, p), rep) by {
      ReplaceRunsFields(t, p, rep);
      assert !(t != [] && p(t[|t| - 1]));
      var j := Join(Fields(t, p), rep);
      assert j + [] == j;
    }
    StripFields(s, p);
  }

  /** The part after the last separator of a stripped string is its last field, or "" without fields. */
  lemma LastFieldOfStrip(s: string, p: char -> bool)
    ensures var f := Fields(s, p);
      AfterLast(Strip(s, p), p) == if f == [] then [] else f[|f| - 1]
  {
    var t := Strip(s, p);
    StripFields(s, p);
    if t != [] {
      LastFieldOf(t, p);
    }
  }

  /** A string that ends with a kept character has the part after its last separator as its last field. */
  lemma LastFieldOf(t: string, p: char -> bool)
    requires t != [] && !p(t[|t| - 1])
    ensures var f := Fields(t, p); f != [] && f[|f| - 1] == AfterLast(t, p)
  {
    var r := AfterLast(t, p);
    var pre := AfterLastRest(t, p);
    assert r != [];
    FieldsAppend(pre, r, p);
    FieldsOne(r, p);
    assert Fields(t, p) == Fields(pre, p) + [r];
  }

  /** What comes before `AfterLast` is empty or ends with a separator. */
  lemma AfterLastRest(t: string, p: char -> bool) returns (pre: string)
    ensures t == pre + AfterLast(t, p) && (pre == [] || p(pre[|pre| - 1]))
  {
    var r := AfterLast(t, p);
    pre := t[..|t| - |r|];
    assert pre == [] || pre[|pre| - 1] == t[|t| - |r| - 1];
  }
}
