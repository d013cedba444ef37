/**
 * The `strip_tags` filter of BaseModel.applyFilters, as two string
 * rewrites that behave like its two global regular-expression replacements:
 *
 *   1. `/<\/?[^>]+>/gi` replaced by '' : StripTags
 *   2. `/(.*)?(\r\n|\n|\r)+(.*)?/g` replaced by '$1\n$3' : CollapseNewlines
 *
 * Both follow the left-to-right scan of a global replace: try a match at the
 * current position; on success emit the replacement and resume after the
 * match, otherwise copy one character (or, for 2, the part of the input
 * where no match can start) and go on.
 */
module StripTagsFilter {

  import opened JsValues

  // ---------------------------------------------------------------------
  // 1. Tag removal

  /** Index of the first '>' in s, if any. */
  function FirstClose(s: string): (r: Option<nat>)
    ensures r.Some? ==> r.value < |s| && s[r.value] == '>' && forall k :: 0 <= k < r.value ==> s[k] != '>'
    ensures r.None? ==> forall k :: 0 <= k < |s| ==> s[k] != '>'
  {
    if s == [] then None
    else if s[0] == '>' then Some(0)
    else match FirstClose(s[1..])
      case None => None
      case Some(j) => Some(j + 1)
  }

  /**
   * `<\/?[^>]+>` matches at the start of s exactly when s starts with '<'
   * and its first '>' comes at least two characters later ('[^>]+' takes
   * the optional '/' too, and cannot cross a '>'). The match then ends at
   * that '>'.
   */
  function TagEnd(s: string): (r: Option<nat>)
    ensures r.Some? ==> 2 <= r.value < |s| && s[0] == '<' && s[r.value] == '>'
  {
    if s != [] && s[0] == '<' then
      match FirstClose(s)
      case Some(j) => if j >= 2 then Some(j) else None
      case None => None
    else None
  }

  /** A tag starts at position i of s. */
  predicate TagAt(s: string, i: nat)
    requires i <= |s|
  {
    TagEnd(s[i..]).Some?
  }

  predicate NoTags(s: string)
  {
    forall i :: 0 <= i < |s| ==> !TagAt(s, i)
  }

  /** `s.replace(/<\/?[^>]+>/gi, '')`. */
  function StripTags(s: string): (r: string)
    ensures |r| <= |s|
    decreases |s|
  {
    if s == [] then []
    else match TagEnd(s)
      case Some(j) => StripTags(s[j + 1..])
      case None => [s[0]] + StripTags(s[1..])
  }

  lemma TagAtShift(c: char, t: string, i: nat)
    requires i < |t|
    ensures TagAt([c] + t, i + 1) <==> TagAt(t, i)
  {
    assert ([c] + t)[i + 1..] == t[i..];
  }

  /** Without a '>' no tag can match, and the filter changes nothing. */
  lemma {:induction false} StripTagsWithoutClose(s: string)
    requires forall k :: 0 <= k < |s| ==> s[k] != '>'
    ensures StripTags(s) == s
    decreases |s|
  {
    if s != [] {
      assert FirstClose(s).None?;
      StripTagsWithoutClose(s[1..]);
      assert s == [s[0]] + s[1..];
    }
  }

  /** Nothing that looks like a tag survives the filter. */
  lemma {:induction false} StripTagsLeavesNoTags(s: string)
    ensures NoTags(StripTags(s))
    decreases |s|
  {
    if s == [] {
    } else {
      match TagEnd(s)
      case Some(j) =>
        StripTagsLeavesNoTags(s[j + 1..]);
      case None =>
        var t := StripTags(s[1..]);
        var r := [s[0]] + t;
        StripTagsLeavesNoTags(s[1..]);
        assert StripTags(s) == r;
        forall i | 0 <= i < |r| ensures !TagAt(r, i) {
          if i > 0 {
            TagAtShift(s[0], t, i - 1);
          } else if s[0] == '<' {
            assert r[0..] == r;
            match FirstClose(s)
            case None =>
              StripTagsWithoutClose(s[1..]);
              assert r == s;
            case Some(j) =>
              assert j == 1;
              assert TagEnd(s[1..]).None?;
              assert t == [s[1]] + StripTags(s[2..]) by {
                assert s[1..][1..] == s[2..];
              }
              assert r[1] == '>';
          }
        }
    }
  }

  /** On text without tags the filter changes nothing. */
  lemma {:induction false} StripTagsFixesTagFree(s: string)
    requires NoTags(s)
    ensures StripTags(s) == s
    decreases |s|
  {
    if s != [] {
      assert s[0..] == s;
      assert !TagAt(s, 0);
      var t := s[1..];
      assert s == [s[0]] + t;
      forall i | 0 <= i < |t| ensures !TagAt(t, i) {
        TagAtShift(s[0], t, i);
      }
      StripTagsFixesTagFree(t);
    }
  }

  lemma StripTagsIdempotent(s: string)
    ensures StripTags(StripTags(s)) == StripTags(s)
  {
    StripTagsLeavesNoTags(s);
    StripTagsFixesTagFree(StripTags(s));
  }

  // ---------------------------------------------------------------------
  // 2. Newline-run collapse

  /** Matched by `(\r\n|\n|\r)`. */
  predicate IsNl(c: char)
  {
    c == '\n' || c == '\r'
  }

  /** Not matched by `.`. */
  predicate IsLineTerminator(c: char)
  {
    IsNl(c) || c == '\U{2028}' || c == '\U{2029}'
  }

  /** Length of the longest prefix of s without a line terminator (what `(.*)` takes). */
  function LineLength(s: string): (n: nat)
    ensures n <= |s|
    ensures forall k :: 0 <= k < n ==> !IsLineTerminator(s[k])
    ensures n < |s| ==> IsLineTerminator(s[n])
  {
    if s == [] || IsLineTerminator(s[0]) then 0 else 1 + LineLength(s[1..])
  }

  /** Length of the longest prefix of s made of CR and LF (what `(\r\n|\n|\r)+` takes). */
  function NlRunLength(s: string): (n: nat)
    ensures n <= |s|
    ensures forall k :: 0 <= k < n ==> IsNl(s[k])
    ensures n < |s| ==> !IsNl(s[n])
  {
    if s == [] || !IsNl(s[0]) then 0 else 1 + NlRunLength(s[1..])
  }

  predicate NoCR(s: string)
  {
    forall i :: 0 <= i < |s| ==> s[i] != '\r'
  }

  predicate NoDoubleNl(s: string)
  {
    forall i :: 0 <= i < |s| - 1 ==> !(s[i] == '\n' && s[i + 1] == '\n')
  }

  /** s with every CR and LF removed: the text the collapse must keep. */
  function Text(s: string): (r: string)
    ensures |r| <= |s|
  {
    if s == [] then [] else (if IsNl(s[0]) then [] else [s[0]]) + Text(s[1..])
  }

  lemma {:induction false} TextAppend(a: string, b: string)
    ensures Text(a + b) == Text(a) + Text(b)
    decreases |a|
  {
    if a != [] {
      assert (a + b)[1..] == a[1..] + b;
      assert (a + b)[0] == a[0];
      TextAppend(a[1..], b);
      var h := if IsNl(a[0]) then [] else [a[0]];
      calc {
        Text(a + b);
        h + Text(a[1..] + b);
        h + (Text(a[1..]) + Text(b));
        (h + Text(a[1..])) + Text(b);
        Text(a) + Text(b);
      }
    } else {
      assert a + b == b;
    }
  }

  lemma {:induction false} TextOfLine(s: string)
    requires forall k :: 0 <= k < |s| ==> !IsNl(s[k])
    ensures Text(s) == s
    decreases |s|
  {
    if s != [] {
      TextOfLine(s[1..]);
      assert s == [s[0]] + s[1..];
    }
  }

  lemma {:induction false} TextOfRun(s: string)
    requires forall k :: 0 <= k < |s| ==> IsNl(s[k])
    ensures Text(s) == []
    decreases |s|
  {
    if s != [] {
      TextOfRun(s[1..]);
    }
  }

  lemma NoDoubleNlAppend(a: string, b: string)
    requires NoDoubleNl(a) && NoDoubleNl(b)
    requires a != [] && b != [] ==> !(a[|a| - 1] == '\n' && b[0] == '\n')
    ensures NoDoubleNl(a + b)
  {
    var ab := a + b;
    forall i | 0 <= i < |ab| - 1 ensures !(ab[i] == '\n' && ab[i + 1] == '\n') {
      if i + 1 < |a| {
        assert ab[i] == a[i] && ab[i + 1] == a[i + 1];
      } else if i >= |a| {
        assert ab[i] == b[i - |a|] && ab[i + 1] == b[i + 1 - |a|];
      }
    }
  }

  lemma NoCRAppend(a: string, b: string)
    requires NoCR(a) && NoCR(b)
    ensures NoCR(a + b)
  {
    var ab := a + b;
    forall i | 0 <= i < |ab| ensures ab[i] != '\r' {
      if i < |a| { assert ab[i] == a[i]; } else { assert ab[i] == b[i - |a|]; }
    }
  }

  /** The text `(.*)` takes at position i of s, as a slice. */
  lemma LineSlice(s: string, i: nat)
    requires i <= |s|
    ensures i + LineLength(s[i..]) <= |s|
    ensures forall k :: i <= k < i + LineLength(s[i..]) ==> !IsLineTerminator(s[k])
    ensures i + LineLength(s[i..]) < |s| ==> IsLineTerminator(s[i + LineLength(s[i..])])
  {
    var n := LineLength(s[i..]);
    forall k | i <= k < i + n ensures !IsLineTerminator(s[k]) {
      assert s[i..][k - i] == s[k];
    }
    if i + n < |s| { assert s[i..][n] == s[i + n]; }
  }

  lemma RunSlice(s: string, i: nat)
    requires i <= |s|
    ensures i + NlRunLength(s[i..]) <= |s|
    ensures forall k :: i <= k < i + NlRunLength(s[i..]) ==> IsNl(s[k])
    ensures i + NlRunLength(s[i..]) < |s| ==> !IsNl(s[i + NlRunLength(s[i..])])
    ensures i < |s| && IsNl(s[i]) ==> NlRunLength(s[i..]) >= 1
  {
    var n := NlRunLength(s[i..]);
    forall k | i <= k < i + n ensures IsNl(s[k]) {
      assert s[i..][k - i] == s[k];
    }
    if i + n < |s| { assert s[i..][n] == s[i + n]; }
    if i < |s| { assert s[i..][0] == s[i]; }
  }

  /**
   * One step of the global replace on a non-empty s: the text it emits and
   * how much of s it consumes.
   *  - no line break ahead: the rest of s is copied;
   *  - the line ends in U+2028/U+2029: no match can start before it, the
   *    line and its terminator are copied;
   *  - the line ends in CR/LF: `$1` (the line), one LF, and `$3` (the text
   *    after the whole CR/LF run, up to the next terminator).
   */
  function Step(s: string): (res: (string, nat))
    requires s != []
    ensures 0 < res.1 <= |s|
    ensures res.0 != [] && NoCR(res.0) && NoDoubleNl(res.0)
    ensures res.0[0] == '\n' <==> IsNl(s[0])
    ensures res.0[|res.0| - 1] == '\n' ==> res.1 == |s| || !IsNl(s[res.1])
  {
    var q := LineLength(s);
    if q == |s| then
      (s, q)
    else if !IsNl(s[q]) then
      (s[..q + 1], q + 1)
    else
      MatchStepShape(s, q);
      MatchStep(s, q)
  }

  /** The match starting at 0 whose line ends at q: `$1\n$3` and the end of `$3`. */
  function MatchStep(s: string, q: nat): (string, nat)
    requires q < |s|
  {
    var r := q + NlRunLength(s[q..]);
    var t := r + LineLength(s[r..]);
    (s[..q] + "\n" + s[r..t], t)
  }

  lemma MatchStepUnfold(s: string, q: nat, r: nat, t: nat)
    requires q < |s| && r == q + NlRunLength(s[q..]) && t == r + LineLength(s[r..])
    ensures t <= |s| && MatchStep(s, q).0 == s[..q] + "\n" + s[r..t] && MatchStep(s, q).1 == t
  {
  }

  lemma MatchStepShape(s: string, q: nat)
    requires s != [] && q == LineLength(s) && q < |s| && IsNl(s[q])
    ensures var res := MatchStep(s, q);
      && 0 < res.1 <= |s|
      && res.0 != [] && NoCR(res.0) && NoDoubleNl(res.0)
      && (res.0[0] == '\n' <==> IsNl(s[0]))
      && (res.0[|res.0| - 1] == '\n' ==> res.1 == |s| || !IsNl(s[res.1]))
  {
    var res := MatchStep(s, q);
    var r := q + NlRunLength(s[q..]);
    var t := r + LineLength(s[r..]);
    MatchStepUnfold(s, q, r, t);
    assert q < r by { RunSlice(s, q); }
    assert res.0 != [] && NoCR(res.0) && NoDoubleNl(res.0)
      && (res.0[0] == '\n' <==> IsNl(s[0]))
      && (res.0[|res.0| - 1] == '\n' ==> t == |s| || !IsNl(s[t])) by {
      RunSlice(s, q);
      LineSlice(s, r);
      MatchReplacement(s, q, r, t, res.0);
    }
  }

  /** The replacement `$1\n$3` of a match that spans s[..t]. */
  lemma MatchReplacement(s: string, q: nat, r: nat, t: nat, piece: string)
    requires q < r <= t <= |s|
    requires forall k :: 0 <= k < q ==> !IsLineTerminator(s[k])
    requires forall k :: r <= k < t ==> !IsLineTerminator(s[k])
    requires IsNl(s[q]) && q == LineLength(s)
    requires t < |s| && r == t ==> !IsNl(s[t])
    requires piece == s[..q] + "\n" + s[r..t]
    ensures piece != [] && NoCR(piece) && NoDoubleNl(piece)
    ensures piece[0] == '\n' <==> IsNl(s[0])
    ensures piece[|piece| - 1] == '\n' ==> t == |s| || !IsNl(s[t])
  {
    var head := s[..q] + "\n";
    var rest := s[r..t];
    assert piece == head + rest;
    assert NoCR(head) && NoDoubleNl(head) && head[|head| - 1] == '\n' by { LineThenNewline(s, q, head); }
    assert NoCR(rest) && NoDoubleNl(rest) && (rest != [] ==> !IsNl(rest[0]) && !IsNl(rest[|rest| - 1])) by {
      PlainSlice(s, r, t, rest);
    }
    NoCRAppend(head, rest);
    NoDoubleNlAppend(head, rest);
    if q > 0 {
      assert piece[0] == head[0] == s[0];
    } else {
      assert piece[0] == '\n';
    }
    if t > r {
      assert piece[|piece| - 1] == rest[|rest| - 1];
    }
  }

  /** `$1` followed by the LF of the replacement. */
  lemma LineThenNewline(s: string, q: nat, head: string)
    requires q < |s| && forall k :: 0 <= k < q ==> !IsLineTerminator(s[k])
    requires head == s[..q] + "\n"
    ensures NoCR(head) && NoDoubleNl(head) && head[|head| - 1] == '\n'
    ensures q > 0 ==> head[0] == s[0]
  {
    forall k | 0 <= k < |head| ensures head[k] != '\r' && (k < |head| - 1 ==> head[k] != '\n') {
      if k < q { assert head[k] == s[k]; }
    }
  }

  /** `$3`: a slice without line terminators. */
  lemma PlainSlice(s: string, r: nat, t: nat, rest: string)
    requires r <= t <= |s| && forall k :: r <= k < t ==> !IsLineTerminator(s[k])
    requires rest == s[r..t]
    ensures NoCR(rest) && NoDoubleNl(rest)
    ensures rest != [] ==> !IsNl(rest[0]) && !IsNl(rest[|rest| - 1])
  {
    forall k | 0 <= k < |rest| ensures !IsNl(rest[k]) {
      assert rest[k] == s[r + k];
    }
  }

  lemma StepText(s: string)
    requires s != []
    ensures Text(Step(s).0) == Text(s[..Step(s).1])
  {
    var q := LineLength(s);
    if q == |s| {
      assert Step(s) == (s, q);
      assert s[..q] == s;
    } else if !IsNl(s[q]) {
      assert Step(s) == (s[..q + 1], q + 1);
    } else {
      StepTextMatch(s, q);
    }
  }

  /** The third case of Step: a CR/LF run ends the line. */
  lemma StepTextMatch(s: string, q: nat)
    requires s != [] && q == LineLength(s) && q < |s| && IsNl(s[q])
    ensures Text(Step(s).0) == Text(s[..Step(s).1])
  {
    var res := MatchStep(s, q);
    assert Step(s) == res;
    var r := q + NlRunLength(s[q..]);
    var t := r + LineLength(s[r..]);
    MatchStepUnfold(s, q, r, t);
    assert Text(res.0) == Text(s[..t]) by {
      RunSlice(s, q);
      LineSlice(s, r);
      MatchText(s, q, r, t, res.0);
    }
  }

  lemma MatchText(s: string, q: nat, r: nat, t: nat, piece: string)
    requires q < r <= t <= |s|
    requires forall k :: 0 <= k < q ==> !IsLineTerminator(s[k])
    requires forall k :: q <= k < r ==> IsNl(s[k])
    requires forall k :: r <= k < t ==> !IsLineTerminator(s[k])
    requires piece == s[..q] + "\n" + s[r..t]
    ensures Text(piece) == Text(s[..t])
  {
    assert s[..t] == s[..q] + s[q..r] + s[r..t];
    TextOfLine(s[..q]);
    TextOfLine(s[r..t]);
    TextOfRun(s[q..r]);
    TextAppend(s[..q] + s[q..r], s[r..t]);
    TextAppend(s[..q], s[q..r]);
    TextAppend(s[..q] + "\n", s[r..t]);
    TextAppend(s[..q], "\n");
    assert Text("\n") == [];
  }

  /** `s.replace(/(.*)?(\r\n|\n|\r)+(.*)?/g, '$1\n$3')`. */
  function CollapseNewlines(s: string): (r: string)
    ensures r == [] <==> s == []
    ensures r != [] ==> (r[0] == '\n' <==> IsNl(s[0]))
    ensures NoCR(r)
    ensures NoDoubleNl(r)
    decreases |s|
  {
    if s == [] then []
    else
      var (piece, n) := Step(s);
      var rest := CollapseNewlines(s[n..]);
      assert rest != [] ==> s[n..][0] == s[n];
      NoCRAppend(piece, rest);
      NoDoubleNlAppend(piece, rest);
      piece + rest
  }

  /** Only CR/LF characters change: all other text is kept, in order. */
  lemma {:induction false} CollapseKeepsText(s: string)
    ensures Text(CollapseNewlines(s)) == Text(s)
    decreases |s|
  {
    if s != [] {
      var n := Step(s).1;
      CollapseTextSplit(s);
      CollapseKeepsText(s[n..]);
      TextSplitAt(s, n);
    }
  }

  lemma TextSplitAt(s: string, n: nat)
    requires n <= |s|
    ensures Text(s) == Text(s[..n]) + Text(s[n..])
  {
    assert s == s[..n] + s[n..];
    TextAppend(s[..n], s[n..]);
  }

  /** The text of the collapse is the text of the first step's input followed by that of the rest. */
  lemma CollapseTextSplit(s: string)
    requires s != []
    ensures Text(CollapseNewlines(s)) == Text(s[..Step(s).1]) + Text(CollapseNewlines(s[Step(s).1..]))
  {
    var piece := Step(s).0;
    var rest := CollapseNewlines(s[Step(s).1..]);
    CollapseUnfold(s);
    TextAppend(piece, rest);
    StepText(s);
  }

  lemma CollapseUnfold(s: string)
    requires s != []
    ensures CollapseNewlines(s) == Step(s).0 + CollapseNewlines(s[Step(s).1..])
  {
  }

  lemma StepOnSingleNewlines(s: string)
    requires s != [] && NoCR(s) && NoDoubleNl(s)
    ensures Step(s).0 == s[..Step(s).1]
  {
    var q := LineLength(s);
    if q == |s| {
      assert s[..q] == s;
    } else if IsNl(s[q]) {
      RunSlice(s, q);
      assert s[q] == '\n';
      assert NlRunLength(s[q..]) == 1 by {
        if q + 1 < |s| { assert s[q..][1] == s[q + 1]; }
      }
      var t := q + 1 + LineLength(s[q + 1..]);
      assert Step(s) == (s[..q] + "\n" + s[q + 1..t], t);
      assert s[..t] == s[..q] + [s[q]] + s[q + 1..t];
    }
  }

  lemma SuffixKeepsSingleNewlines(s: string, n: nat)
    requires n <= |s| && NoCR(s) && NoDoubleNl(s)
    ensures NoCR(s[n..]) && NoDoubleNl(s[n..])
  {
    forall i | 0 <= i < |s[n..]| ensures s[n..][i] != '\r' { assert s[n..][i] == s[n + i]; }
    forall i | 0 <= i < |s[n..]| - 1 ensures !(s[n..][i] == '\n' && s[n..][i + 1] == '\n') {
      assert s[n..][i] == s[n + i] && s[n..][i + 1] == s[n + i + 1];
    }
  }

  /** Text whose line breaks are single LFs is left as it is. */
  lemma {:induction false} CollapseFixesSingleNewlines(s: string)
    requires NoCR(s) && NoDoubleNl(s)
    ensures CollapseNewlines(s) == s
    decreases |s|
  {
    if s != [] {
      var n := Step(s).1;
      calc {
        CollapseNewlines(s);
        { CollapseUnfold(s); }
        Step(s).0 + CollapseNewlines(s[n..]);
        { StepOnSingleNewlines(s); }
        s[..n] + CollapseNewlines(s[n..]);
        { SuffixKeepsSingleNewlines(s, n); CollapseFixesSingleNewlines(s[n..]); }
        s[..n] + s[n..];
        { assert s == s[..n] + s[n..]; }
        s;
      }
    }
  }

  lemma CollapseIdempotent(s: string)
    ensures CollapseNewlines(CollapseNewlines(s)) == CollapseNewlines(s)
  {
    CollapseFixesSingleNewlines(CollapseNewlines(s));
  }

  /**
   * What the collapse means: every maximal run of CR/LF characters becomes
   * one LF in its place, and every other character is kept.
   */
  function CollapseRuns(s: string): (r: string)
    ensures |r| <= |s| && (r == [] <==> s == [])
    ensures NoCR(r)
    decreases |s|
  {
    if s == [] then []
    else if IsNl(s[0]) then "\n" + CollapseRuns(s[NlRunLength(s)..])
    else [s[0]] + CollapseRuns(s[1..])
  }

  lemma {:induction false} RunsPlainPrefix(p: string, u: string)
    requires forall k :: 0 <= k < |p| ==> !IsNl(p[k])
    ensures CollapseRuns(p + u) == p + CollapseRuns(u)
    decreases |p|
  {
    if p != [] {
      assert (p + u)[0] == p[0];
      assert (p + u)[1..] == p[1..] + u;
      RunsPlainPrefix(p[1..], u);
      assert p == [p[0]] + p[1..];
    } else {
      assert p + u == u;
    }
  }

  lemma RunsAtBreak(s: string, q: nat)
    requires q < |s| && IsNl(s[q])
    ensures CollapseRuns(s[q..]) == "\n" + CollapseRuns(s[q + NlRunLength(s[q..])..])
  {
    assert s[q..][0] == s[q];
    assert s[q..][NlRunLength(s[q..])..] == s[q + NlRunLength(s[q..])..];
  }

  /** A prefix without CR/LF is copied by CollapseRuns. */
  lemma PlainThenRuns(s: string, n: nat)
    requires n <= |s| && forall k :: 0 <= k < n ==> !IsNl(s[k])
    ensures CollapseRuns(s) == s[..n] + CollapseRuns(s[n..])
  {
    assert s == s[..n] + s[n..];
    assert forall k :: 0 <= k < n ==> s[..n][k] == s[k];
    RunsPlainPrefix(s[..n], s[n..]);
  }

  /** A line, a CR/LF run and the next line: CollapseRuns emits `$1\n$3` for them. */
  lemma RunsOfMatch(s: string, q: nat, r: nat, t: nat)
    requires q < r <= t <= |s|
    requires forall k :: 0 <= k < q ==> !IsLineTerminator(s[k])
    requires forall k :: q <= k < r ==> IsNl(s[k])
    requires r < |s| ==> !IsNl(s[r])
    requires forall k :: r <= k < t ==> !IsLineTerminator(s[k])
    ensures CollapseRuns(s) == (s[..q] + "\n" + s[r..t]) + CollapseRuns(s[t..])
  {
    MatchPieces(s, q, r, t);
    RunsOfPieces(s[..q], s[q..r], s[r..t], s[t..]);
  }

  /** The four slices of a match, and what each is made of. */
  lemma MatchPieces(s: string, q: nat, r: nat, t: nat)
    requires q < r <= t <= |s|
    requires forall k :: 0 <= k < q ==> !IsLineTerminator(s[k])
    requires forall k :: q <= k < r ==> IsNl(s[k])
    requires r < |s| ==> !IsNl(s[r])
    requires forall k :: r <= k < t ==> !IsLineTerminator(s[k])
    ensures s == s[..q] + s[q..r] + s[r..t] + s[t..]
    ensures forall k :: 0 <= k < q ==> !IsNl(s[..q][k])
    ensures s[q..r] != [] && forall k :: 0 <= k < r - q ==> IsNl(s[q..r][k])
    ensures forall k :: 0 <= k < t - r ==> !IsNl(s[r..t][k])
    ensures s[r..t] + s[t..] != [] ==> !IsNl((s[r..t] + s[t..])[0])
  {
    assert s[..q] + s[q..r] == s[..r];
    assert s[..r] + s[r..t] == s[..t];
    assert s[..t] + s[t..] == s;
    if s[r..t] + s[t..] != [] { assert s[r..t] + s[t..] == s[r..]; assert s[r..][0] == s[r]; }
  }

  lemma RunsOfPieces(a: string, run: string, b: string, rest: string)
    requires forall k :: 0 <= k < |a| ==> !IsNl(a[k])
    requires run != [] && forall k :: 0 <= k < |run| ==> IsNl(run[k])
    requires forall k :: 0 <= k < |b| ==> !IsNl(b[k])
    requires b + rest != [] ==> !IsNl((b + rest)[0])
    ensures CollapseRuns(a + run + b + rest) == (a + "\n" + b) + CollapseRuns(rest)
  {
    var u := b + rest;
    var x, y, z := CollapseRuns(a + (run + u)), CollapseRuns(run + u), CollapseRuns(u);
    assert a + run + b + rest == a + (run + u);
    assert x == a + y by { RunsPlainPrefix(a, run + u); }
    assert y == "\n" + z by { RunsAfterRun(run, u); }
    assert z == b + CollapseRuns(rest) by { RunsPlainPrefix(b, rest); }
    assert a + ("\n" + (b + CollapseRuns(rest))) == (a + "\n" + b) + CollapseRuns(rest);
  }

  lemma RunsAfterRun(run: string, u: string)
    requires run != [] && forall k :: 0 <= k < |run| ==> IsNl(run[k])
    requires u != [] ==> !IsNl(u[0])
    ensures CollapseRuns(run + u) == "\n" + CollapseRuns(u)
  {
    NlRunLengthOf(run, u);
    assert (run + u)[0] == run[0];
    assert (run + u)[|run|..] == u;
  }

  /** One step of the scan emits what CollapseRuns makes of the part it consumes. */
  lemma StepRuns(s: string)
    requires s != []
    ensures CollapseRuns(s) == Step(s).0 + CollapseRuns(s[Step(s).1..])
  {
    var q := LineLength(s);
    if q == |s| {
      assert Step(s) == (s, q);
      PlainThenRuns(s, q);
      assert s[..q] == s;
    } else if !IsNl(s[q]) {
      assert Step(s) == (s[..q + 1], q + 1);
      PlainThenRuns(s, q + 1);
    } else {
      var r := q + NlRunLength(s[q..]);
      var t := r + LineLength(s[r..]);
      assert Step(s) == MatchStep(s, q);
      MatchStepUnfold(s, q, r, t);
      RunSlice(s, q);
      LineSlice(s, r);
      RunsOfMatch(s, q, r, t);
    }
  }

  /** The scan computes CollapseRuns. */
  lemma {:induction false} CollapseIsRuns(s: string)
    ensures CollapseNewlines(s) == CollapseRuns(s)
    decreases |s|
  {
    if s != [] {
      CollapseUnfold(s);
      StepRuns(s);
      CollapseIsRuns(s[Step(s).1..]);
    }
  }

  lemma NoTagsSuffix(t: string, n: nat)
    requires n <= |t| && NoTags(t)
    ensures NoTags(t[n..])
  {
    forall i | 0 <= i < |t[n..]| ensures !TagAt(t[n..], i) {
      assert t[n..][i..] == t[n + i..];
      assert !TagAt(t, n + i);
    }
  }

  lemma NoTagsCons(c: char, u: string)
    requires NoTags(u) && !TagAt([c] + u, 0)
    ensures NoTags([c] + u)
  {
    forall i | 0 < i < |[c] + u| ensures !TagAt([c] + u, i) {
      TagAtShift(c, u, i - 1);
    }
  }

  lemma {:induction false} RunsNoClose(t: string)
    requires forall k :: 0 <= k < |t| ==> t[k] != '>'
    ensures forall k :: 0 <= k < |CollapseRuns(t)| ==> CollapseRuns(t)[k] != '>'
    decreases |t|
  {
    if t != [] {
      var n := if IsNl(t[0]) then NlRunLength(t) else 1;
      assert forall k :: 0 <= k < |t[n..]| ==> t[n..][k] == t[n + k];
      RunsNoClose(t[n..]);
      var c, u := if IsNl(t[0]) then '\n' else t[0], CollapseRuns(t[n..]);
      assert CollapseRuns(t) == [c] + u;
      forall k | 0 < k < |[c] + u| ensures ([c] + u)[k] != '>' {
        assert ([c] + u)[k] == u[k - 1];
      }
    }
  }

  /** Collapsing line breaks cannot bring a '<' and a '>' together into a tag. */
  lemma {:induction false} RunsKeepNoTags(t: string)
    requires NoTags(t)
    ensures NoTags(CollapseRuns(t))
    decreases |t|
  {
    if t != [] {
      if IsNl(t[0]) {
        var n := NlRunLength(t);
        NoTagsSuffix(t, n);
        RunsKeepNoTags(t[n..]);
        var u := CollapseRuns(t[n..]);
        assert CollapseRuns(t) == ['\n'] + u;
        assert (['\n'] + u)[0..] == ['\n'] + u;
        NoTagsCons('\n', u);
      } else {
        NoTagsSuffix(t, 1);
        RunsKeepNoTags(t[1..]);
        var u := CollapseRuns(t[1..]);
        assert CollapseRuns(t) == [t[0]] + u;
        FirstTagFree(t, u);
        NoTagsCons(t[0], u);
      }
    }
  }

  /** The first character of t, kept in front of the collapse of the rest, starts no tag. */
  lemma FirstTagFree(t: string, u: string)
    requires t != [] && !IsNl(t[0]) && NoTags(t) && u == CollapseRuns(t[1..])
    ensures !TagAt([t[0]] + u, 0)
  {
    var v := [t[0]] + u;
    assert v[0..] == v;
    assert t[0..] == t;
    assert !TagAt(t, 0);
    if t[0] == '<' {
      match FirstClose(t)
      case None =>
        assert forall k :: 0 <= k < |t[1..]| ==> t[1..][k] == t[1 + k];
        RunsNoClose(t[1..]);
        assert forall k :: 0 <= k < |v| ==> v[k] != '>' by {
          forall k | 0 < k < |v| ensures v[k] != '>' { assert v[k] == u[k - 1]; }
        }
      case Some(j) =>
        assert j == 1;
        assert t[1..][0] == '>';
        assert u == [t[1]] + CollapseRuns(t[1..][1..]);
        assert v[1] == '>';
    }
  }

  /** The whole strip_tags rewrite of a string attribute value. */
  function StripTagsValue(s: string): (r: string)
    ensures NoCR(r) && NoDoubleNl(r)
  {
    CollapseNewlines(StripTags(s))
  }

  /** Running the filter on its own output changes nothing. */
  lemma StripTagsValueIdempotent(s: string)
    ensures StripTagsValue(StripTagsValue(s)) == StripTagsValue(s)
  {
    var x := StripTags(s);
    var c := CollapseNewlines(x);
    StripTagsLeavesNoTags(s);
    CollapseIsRuns(x);
    RunsKeepNoTags(x);
    StripTagsFixesTagFree(c);
    CollapseIdempotent(x);
  }

  lemma {:induction false} StripTagsPlainPrefix(p: string, u: string)
    requires forall k :: 0 <= k < |p| ==> p[k] != '<'
    ensures StripTags(p + u) == p + StripTags(u)
    decreases |p|
  {
    if p != [] {
      calc {
        StripTags(p + u);
        { assert (p + u)[0] == p[0]; assert TagEnd(p + u).None?; }
        [p[0]] + StripTags((p + u)[1..]);
        { assert (p + u)[1..] == p[1..] + u; }
        [p[0]] + StripTags(p[1..] + u);
        { StripTagsPlainPrefix(p[1..], u); }
        [p[0]] + (p[1..] + StripTags(u));
        { assert p == [p[0]] + p[1..]; }
        p + StripTags(u);
      }
    } else {
      assert p + u == u;
    }
  }

  lemma {:induction false} FirstCloseAfter(p: string, u: string)
    requires forall k :: 0 <= k < |p| ==> p[k] != '>'
    ensures FirstClose(p + ">" + u) == Some(|p|)
    decreases |p|
  {
    if p != [] {
      assert (p + ">" + u)[1..] == p[1..] + ">" + u;
      FirstCloseAfter(p[1..], u);
    }
  }

  lemma StripTagsTagPrefix(body: string, u: string)
    requires body != [] && forall k :: 0 <= k < |body| ==> body[k] != '>'
    ensures StripTags("<" + body + ">" + u) == StripTags(u)
  {
    var s := "<" + body + ">" + u;
    FirstCloseAfter("<" + body, u);
    assert TagEnd(s) == Some(|body| + 1);
    assert s[|body| + 2..] == u;
  }

  lemma StripTagsOnExample(tail: string, word: string, s: string)
    requires tail == "\n\nWorld" && word == "Hello"
    requires s == "<" + "b" + ">" + (word + ("<" + "/b" + ">" + tail))
    ensures StripTags(s) == word + tail
  {
    assert forall k :: 0 <= k < |tail| ==> tail[k] != '<';
    StripTagsPlainPrefix(tail, []);
    assert tail + [] == tail;
    StripTagsTagPrefix("/b", tail);
    StripTagsPlainPrefix(word, "<" + "/b" + ">" + tail);
    StripTagsTagPrefix("b", word + ("<" + "/b" + ">" + tail));
  }

  lemma {:induction false} LineLengthOf(p: string, u: string)
    requires forall k :: 0 <= k < |p| ==> !IsLineTerminator(p[k])
    requires u != [] ==> IsLineTerminator(u[0])
    ensures LineLength(p + u) == |p|
    decreases |p|
  {
    if p != [] {
      assert (p + u)[1..] == p[1..] + u;
      LineLengthOf(p[1..], u);
    } else {
      assert p + u == u;
    }
  }

  lemma {:induction false} NlRunLengthOf(p: string, u: string)
    requires forall k :: 0 <= k < |p| ==> IsNl(p[k])
    requires u != [] ==> !IsNl(u[0])
    ensures NlRunLength(p + u) == |p|
    decreases |p|
  {
    if p != [] {
      assert (p + u)[1..] == p[1..] + u;
      NlRunLengthOf(p[1..], u);
    } else {
      assert p + u == u;
    }
  }

  lemma CollapseOnExample(c: string)
    requires c == "Hello" + "\n\n" + "World"
    ensures CollapseNewlines(c) == "Hello\nWorld"
  {
    LineLengthOf("Hello", "\n\n" + "World");
    assert c[5..] == "\n\n" + "World";
    NlRunLengthOf("\n\n", "World");
    assert c[7..] == "World" + [];
    LineLengthOf("World", []);
    assert Step(c) == (c[..5] + "\n" + c[7..12], 12);
    assert c[..5] + "\n" + c[7..12] == "Hello\nWorld";
    assert c[12..] == [];
  }

  lemma ExampleShape(s: string, tail: string, word: string)
    requires s == "<b>Hello</b>\n\nWorld" && tail == "\n\nWorld" && word == "Hello"
    ensures s == "<" + "b" + ">" + (word + ("<" + "/b" + ">" + tail))
    ensures word + tail == "Hello" + "\n\n" + "World"
  {
  }

  /** The filter's advertised effect on a small document. */
  lemma StripTagsExample(s: string)
    requires s == "<b>Hello</b>\n\nWorld"
    ensures StripTagsValue(s) == "Hello\nWorld"
  {
    var tail, word := "\n\nWorld", "Hello";
    ExampleShape(s, tail, word);
    StripTagsOnExample(tail, word, s);
    CollapseOnExample(word + tail);
  }
}
