/** The string functions the handlers rely on, as the Go library defines them. */
module Strings {

  /** `t` occurs in `s` at index `i`. */
  predicate OccursAt(s: string, t: string, i: int) {
    0 <= i <= |s| - |t| && s[i..i + |t|] == t
  }

  predicate Contains(s: string, t: string) {
    exists i :: 0 <= i <= |s| - |t| && OccursAt(s, t, i)
  }

  /** The first index at or after `from` at which `t` occurs, -1 if there is none. */
  function IndexFrom(s: string, t: string, from: nat): (i: int)
    ensures i == -1 || (from <= i && OccursAt(s, t, i))
    ensures forall j :: from <= j && (j < i || i == -1) ==> !OccursAt(s, t, j)
    decreases |s| - from
  {
    if |s| - |t| < from then -1
    else if OccursAt(s, t, from) then from
    else IndexFrom(s, t, from + 1)
  }

  function Index(s: string, t: string): (i: int)
    ensures i == -1 <==> !Contains(s, t)
    ensures i != -1 ==> OccursAt(s, t, i)
    ensures forall j :: 0 <= j < i ==> !OccursAt(s, t, j)
  {
    IndexFrom(s, t, 0)
  }

  /** Every occurrence of `from`, left to right, is replaced. */
  function ReplaceAll(s: string, from: string, to: string): string
    requires from != ""
  {
    if |s| < |from| then s
    else if s[..|from|] == from then to + ReplaceAll(s[|from|..], from, to)
    else [s[0]] + ReplaceAll(s[1..], from, to)
  }

  lemma OccursInTail(s: string, t: string, i: nat)
    requires s != ""
    ensures OccursAt(s[1..], t, i) <==> OccursAt(s, t, i + 1)
  {
    if i + |t| < |s| {
      assert s[1..][i..i + |t|] == s[i + 1..i + 1 + |t|];
    }
  }

  lemma {:induction false} NothingToReplace(s: string, from: string, to: string)
    requires from != "" && !Contains(s, from)
    ensures ReplaceAll(s, from, to) == s
  {
    if |from| <= |s| {
      assert !OccursAt(s, from, 0);
      forall i | 0 <= i <= |s[1..]| - |from|
        ensures !OccursAt(s[1..], from, i)
      {
        OccursInTail(s, from, i);
      }
      NothingToReplace(s[1..], from, to);
    }
  }

  /** What comes before the first occurrence stays, and replacing goes on behind it. */
  lemma {:induction false} ReplacesFirst(s: string, from: string, to: string, i: nat)
    requires from != "" && OccursAt(s, from, i) && forall j :: 0 <= j < i ==> !OccursAt(s, from, j)
    ensures ReplaceAll(s, from, to) == s[..i] + (to + ReplaceAll(s[i + |from|..], from, to))
    decreases s, 1
  {
    var tail := to + ReplaceAll(s[i + |from|..], from, to);
    if i == 0 {
      assert s[..0] + tail == tail;
    } else {
      assert ReplaceAll(s, from, to) == [s[0]] + ReplaceAll(s[1..], from, to) by {
        assert !OccursAt(s, from, 0);
        assert s[..|from|] == s[0..0 + |from|];
      }
      ReplacesFirstInTail(s, from, to, i);
      assert s[..i] == [s[0]] + s[1..][..i - 1];
      assert [s[0]] + (s[1..][..i - 1] + tail) == ([s[0]] + s[1..][..i - 1]) + tail;
    }
  }

  lemma {:induction false} ReplacesFirstInTail(s: string, from: string, to: string, i: nat)
    requires i > 0 && from != "" && OccursAt(s, from, i) && forall j :: 0 <= j < i ==> !OccursAt(s, from, j)
    ensures ReplaceAll(s[1..], from, to) == s[1..][..i - 1] + (to + ReplaceAll(s[i + |from|..], from, to))
    decreases s, 0
  {
    OccursInTail(s, from, i - 1);
    forall j | 0 <= j < i - 1
      ensures !OccursAt(s[1..], from, j)
    {
      OccursInTail(s, from, j);
    }
    ReplacesFirst(s[1..], from, to, i - 1);
    assert s[1..][i - 1 + |from|..] == s[i + |from|..];
  }

  /** White space as Unicode defines it. */
  predicate IsSpace(c: char) {
    var n := c as int;
    || 9 <= n <= 13 || n == 0x20 || n == 0x85 || n == 0xa0 || n == 0x1680
    || 0x2000 <= n <= 0x200a || n == 0x2028 || n == 0x2029 || n == 0x202f || n == 0x205f || n == 0x3000
  }

  function TrimLeft(s: string): string {
    if s != "" && IsSpace(s[0]) then TrimLeft(s[1..]) else s
  }

  function TrimRight(s: string): string {
    if s != "" && IsSpace(s[|s| - 1]) then TrimRight(s[..|s| - 1]) else s
  }

  function TrimSpace(s: string): string {
    TrimRight(TrimLeft(s))
  }

  /** Trim with a cutset of one character. */
  function TrimChar(s: string, c: char): string
    decreases |s|
  {
    if s != "" && s[0] == c then TrimChar(s[1..], c)
    else if s != "" && s[|s| - 1] == c then TrimChar(s[..|s| - 1], c)
    else s
  }

  function TrimSuffix(s: string, suffix: string): (r: string)
    ensures forall front :: s == front + suffix ==> r == front
    ensures r == s || s == r + suffix
  {
    if |suffix| <= |s| && s[|s| - |suffix|..] == suffix then s[..|s| - |suffix|] else s
  }

  function TrimPrefix(s: string, prefix: string): (r: string)
    ensures forall tail :: s == prefix + tail ==> r == tail
    ensures !(prefix <= s) ==> r == s
  {
    if prefix <= s then s[|prefix|..] else s
  }

  /** The pieces of `s` between separators; never empty. */
  function Split(s: string, sep: char): (pieces: seq<string>)
    ensures |pieces| > 0
  {
    if s == "" then [""]
    else
      var rest := Split(s[1..], sep);
      if s[0] == sep then [""] + rest else [[s[0]] + rest[0]] + rest[1..]
  }

  function Join(pieces: seq<string>, sep: char): string {
    if |pieces| == 0 then ""
    else if |pieces| == 1 then pieces[0]
    else pieces[0] + [sep] + Join(pieces[1..], sep)
  }

  /** Splitting loses nothing. */
  lemma {:induction false} JoinSplit(s: string, sep: char)
    ensures Join(Split(s, sep), sep) == s
  {
    if s != "" {
      JoinSplit(s[1..], sep);
      var rest := Split(s[1..], sep);
      if s[0] == sep {
        assert ([""] + rest)[1..] == rest;
      } else if |rest| > 1 {
        assert ([[s[0]] + rest[0]] + rest[1..])[1..] == rest[1..];
      }
    }
  }

  lemma {:induction false} PiecesHaveNoSeparator(s: string, sep: char, k: nat)
    requires k < |Split(s, sep)|
    ensures sep !in Split(s, sep)[k]
  {
    if s != "" {
      if k > 0 || s[0] != sep {
        PiecesHaveNoSeparator(s[1..], sep, if s[0] == sep then k - 1 else k);
      }
    }
  }

  /** The second piece stands between the first separator and the next, or the end. */
  lemma SecondPiece(s: string, sep: char) returns (rest: string)
    requires |Split(s, sep)| >= 2
    ensures s == Split(s, sep)[0] + [sep] + (Split(s, sep)[1] + rest)
    ensures rest == "" || rest[0] == sep
  {
    var pieces := Split(s, sep);
    JoinSplit(s, sep);
    rest := if |pieces| == 2 then "" else [sep] + Join(pieces[2..], sep);
    assert pieces[1..][1..] == pieces[2..];
    assert Join(pieces[1..], sep) == pieces[1] + rest;
  }

  /** A prefix without the separator ends before the first separator. */
  lemma PrefixBeforeSeparator(t: string, first: string, sep: char, tail: string)
    requires t <= first + [sep] + tail && sep !in t
    ensures t <= first
  {
    var whole := first + [sep] + tail;
    assert whole[|first|] == sep;
    assert forall i :: 0 <= i < |t| ==> whole[i] == t[i] != sep;
  }

  /** The last piece is empty exactly when `s` is empty or ends in the separator. */
  lemma {:induction false} LastPiece(s: string, sep: char)
    ensures
      var pieces := Split(s, sep);
      pieces[|pieces| - 1] == "" <==> s == "" || s[|s| - 1] == sep
  {
    if s != "" {
      LastPiece(s[1..], sep);
    }
  }

  // ----- Trimming and searching -----

  predicate NoSpace(t: string) {
    forall i :: 0 <= i < |t| ==> !IsSpace(t[i])
  }

  predicate AllSpace(t: string) {
    forall i :: 0 <= i < |t| ==> IsSpace(t[i])
  }

  predicate Trimmed(t: string) {
    t == "" || (!IsSpace(t[0]) && !IsSpace(t[|t| - 1]))
  }

  lemma {:induction false} TrimLeftCuts(s: string) returns (left: string)
    ensures AllSpace(left) && s == left + TrimLeft(s)
    ensures TrimLeft(s) == "" || !IsSpace(TrimLeft(s)[0])
  {
    left := "";
    if s != "" && IsSpace(s[0]) {
      var rest := TrimLeftCuts(s[1..]);
      left := [s[0]] + rest;
    }
  }

  lemma {:induction false} TrimRightCuts(s: string) returns (right: string)
    ensures AllSpace(right) && s == TrimRight(s) + right
    ensures TrimRight(s) == "" || !IsSpace(TrimRight(s)[|TrimRight(s)| - 1])
  {
    right := "";
    if s != "" && IsSpace(s[|s| - 1]) {
      var rest := TrimRightCuts(s[..|s| - 1]);
      right := rest + [s[|s| - 1]];
    }
  }

  /** Trimming cuts off white space only, and all of it at both ends. */
  lemma TrimSpaceCuts(s: string) returns (left: string, right: string)
    ensures s == left + TrimSpace(s) + right
    ensures AllSpace(left) && AllSpace(right) && Trimmed(TrimSpace(s))
  {
    left := TrimLeftCuts(s);
    right := TrimRightCuts(TrimLeft(s));
    if TrimSpace(s) != "" {
      assert TrimSpace(s)[0] == TrimLeft(s)[0];
    }
  }

  /** There is but one way to do that. */
  lemma TrimSpaceOf(left: string, t: string, right: string)
    requires AllSpace(left) && AllSpace(right) && Trimmed(t)
    ensures TrimSpace(left + t + right) == t
  {
    assert left + t + right == left + (t + right);
    TrimLeftOf(left, t + right);
    if t == "" {
      assert t + right == right + "";
      TrimLeftOf(right, "");
    } else {
      assert (t + right)[0] == t[0];
      TrimRightOf(t, right);
    }
  }

  lemma TrimmedStays(t: string)
    requires Trimmed(t)
    ensures TrimSpace(t) == t
  {
    TrimSpaceOf("", t, "");
    assert "" + t + "" == t;
  }

  lemma {:induction false} TrimLeftOf(left: string, t: string)
    requires AllSpace(left)
    ensures TrimLeft(left + t) == TrimLeft(t)
  {
    if left == "" {
      assert left + t == t;
    } else {
      TrimLeftOf(left[1..], t);
      assert (left + t)[1..] == left[1..] + t;
    }
  }

  lemma {:induction false} TrimRightOf(t: string, right: string)
    requires AllSpace(right)
    ensures TrimRight(t + right) == TrimRight(t)
  {
    if right == "" {
      assert t + right == t;
    } else {
      var front := right[..|right| - 1];
      TrimRightOf(t, front);
      assert (t + right)[..|t + right| - 1] == t + front;
    }
  }

  lemma {:induction false} TrimLeftKeeps(s: string, t: string)
    requires t != "" && NoSpace(t)
    ensures Contains(TrimLeft(s), t) <==> Contains(s, t)
  {
    if s != "" && IsSpace(s[0]) {
      TrimLeftKeeps(s[1..], t);
      forall i | OccursAt(s, t, i)
        ensures OccursAt(s[1..], t, i - 1)
      {
        assert s[i..i + |t|][0] == t[0];
        OccursInTail(s, t, i - 1);
      }
      forall i | OccursAt(s[1..], t, i)
        ensures OccursAt(s, t, i + 1)
      {
        OccursInTail(s, t, i);
      }
    }
  }

  lemma {:induction false} TrimRightKeeps(s: string, t: string)
    requires t != "" && NoSpace(t)
    ensures Contains(TrimRight(s), t) <==> Contains(s, t)
  {
    if s != "" && IsSpace(s[|s| - 1]) {
      var front := s[..|s| - 1];
      TrimRightKeeps(front, t);
      forall i | OccursAt(s, t, i)
        ensures OccursAt(front, t, i)
      {
        assert s[i..i + |t|][|t| - 1] == t[|t| - 1];
        assert front[i..i + |t|] == s[i..i + |t|];
      }
      forall i | OccursAt(front, t, i)
        ensures OccursAt(s, t, i)
      {
        assert front[i..i + |t|] == s[i..i + |t|];
      }
    }
  }

  /** Trimming white space neither hides nor makes an occurrence of a text without white space. */
  lemma TrimSpaceKeeps(s: string, t: string)
    requires t != "" && NoSpace(t)
    ensures Contains(TrimSpace(s), t) <==> Contains(s, t)
  {
    TrimLeftKeeps(s, t);
    TrimRightKeeps(TrimLeft(s), t);
  }
}
