/** Where in a diff the review comment about logging is placed. */
module ReviewPosition {
  import opened Wrappers
  import opened Strings

  /** A hunk as parsed: its header line, and the lines below it as one text. */
  datatype Hunk = Hunk(header: string, body: string)

  datatype FileDiff = FileDiff(newName: string, hunks: seq<Hunk>)

  datatype Review = Review(path: string, position: int)

  /** An added line that logs an error. */
  predicate IsMatch(line: string) {
    line != "" && line[0] == '+' && (Contains(line, "mlog.Error(") || Contains(line, "mlog.Critical("))
  }

  // ----- The diff as it is shown -----

  /** A line of the rendered diff. Headers are never commented on. */
  datatype Line = Header(text: string) | Text(text: string)

  /** The pieces of a hunk's body as the loop sees them. */
  function Pieces(hunk: Hunk): seq<string> {
    Split(hunk.body, '\n')
  }

  predicate Terminated(hunk: Hunk) {
    hunk.body == "" || hunk.body[|hunk.body| - 1] == '\n'
  }

  function Texts(lines: seq<string>): (texts: seq<Line>)
    ensures |texts| == |lines|
  {
    seq(|lines|, i requires 0 <= i < |lines| => Text(lines[i]))
  }

  /** The lines of a hunk: a body that ends in a newline has no line after it. */
  function BodyLines(hunk: Hunk): seq<string> {
    var pieces := Pieces(hunk);
    if pieces[|pieces| - 1] == "" then pieces[..|pieces| - 1] else pieces
  }

  function Rendered(hunk: Hunk): seq<Line> {
    [Header(hunk.header)] + Texts(BodyLines(hunk))
  }

  function Concat<T>(parts: seq<seq<T>>): seq<T> {
    if parts == [] then [] else Concat(parts[..|parts| - 1]) + parts[|parts| - 1]
  }

  function RenderedAll(hunks: seq<Hunk>): (parts: seq<seq<Line>>)
    ensures |parts| == |hunks|
  {
    seq(|hunks|, i requires 0 <= i < |hunks| => Rendered(hunks[i]))
  }

  function Flattened(hunks: seq<Hunk>): seq<Line> {
    Concat(RenderedAll(hunks))
  }

  // ----- The loop -----

  /** How far the loop has counted after these hunks. */
  function Counted(hunks: seq<Hunk>): nat {
    if hunks == [] then 0 else Counted(hunks[..|hunks| - 1]) + |Pieces(hunks[|hunks| - 1])|
  }

  function Unterminated(hunks: seq<Hunk>): nat {
    if hunks == [] then 0
    else Unterminated(hunks[..|hunks| - 1]) + if Terminated(hunks[|hunks| - 1]) then 0 else 1
  }

  /** The place of a piece: file, hunk and piece number. */
  datatype Place = Place(f: nat, h: nat, p: nat)

  predicate IsPlace(files: seq<FileDiff>, at: Place) {
    && at.f < |files| && at.h < |files[at.f].hunks|
    && at.p < |Pieces(files[at.f].hunks[at.h])|
  }

  function PieceAt(files: seq<FileDiff>, at: Place): string
    requires IsPlace(files, at)
  {
    Pieces(files[at.f].hunks[at.h])[at.p]
  }

  predicate Before(a: Place, b: Place) {
    a.f < b.f || (a.f == b.f && (a.h < b.h || (a.h == b.h && a.p < b.p)))
  }

  ghost predicate NoMatchBefore(files: seq<FileDiff>, at: Place) {
    forall b: Place :: IsPlace(files, b) && Before(b, at) ==> !IsMatch(PieceAt(files, b))
  }

  ghost predicate IsFirstMatch(files: seq<FileDiff>, at: Place) {
    IsPlace(files, at) && IsMatch(PieceAt(files, at)) && NoMatchBefore(files, at)
  }

  /** The position the loop sends for a piece. */
  function PositionOf(files: seq<FileDiff>, at: Place): int
    requires IsPlace(files, at)
  {
    Counted(files[at.f].hunks[..at.h]) + at.p + 1
  }

  /** `sent` is the review asked for, if any, and `at` the line it is about. */
  method ReviewMlog(isMember: bool, diff: Option<seq<FileDiff>>, reviewWorks: bool)
    returns (sent: Option<Review>, ghost at: Place, failed: bool)
    ensures isMember ==> sent.None? && !failed
    ensures !isMember && diff.None? ==> sent.None? && failed
    ensures !isMember && diff.Some? && sent.None? ==>
      !failed && forall b: Place :: IsPlace(diff.value, b) && "+" <= PieceAt(diff.value, b) ==>
        !Contains(PieceAt(diff.value, b), "mlog.Error(") && !Contains(PieceAt(diff.value, b), "mlog.Critical(")
    ensures sent.Some? ==>
      && diff.Some? && IsFirstMatch(diff.value, at) && (failed <==> !reviewWorks)
      && "+" <= PieceAt(diff.value, at)
      && (Contains(PieceAt(diff.value, at), "mlog.Error(") || Contains(PieceAt(diff.value, at), "mlog.Critical("))
      && (forall name :: diff.value[at.f].newName == "b/" + name ==> sent.value.path == name)
      && (!("b/" <= diff.value[at.f].newName) ==> sent.value.path == diff.value[at.f].newName)
      && sent.value == Review(TrimPrefix(diff.value[at.f].newName, "b/"), PositionOf(diff.value, at))
  {
    at := Place(0, 0, 0);
    if isMember {
      return None, at, false;
    }
    if diff.None? {
      return None, at, true;
    }
    var files := diff.value;
    for f := 0 to |files|
      invariant NoMatchBefore(files, Place(f, 0, 0))
    {
      var position := 0;
      for h := 0 to |files[f].hunks|
        invariant position == Counted(files[f].hunks[..h])
        invariant NoMatchBefore(files, Place(f, h, 0))
      {
        var lines := Pieces(files[f].hunks[h]);
        for p := 0 to |lines|
          invariant position == Counted(files[f].hunks[..h]) + p
          invariant NoMatchBefore(files, Place(f, h, p))
        {
          var line := lines[p];
          position := position + 1;
          if line == "" || line[0] != '+' {
            continue;
          }
          if Contains(line, "mlog.Error(") || Contains(line, "mlog.Critical(") {
            at := Place(f, h, p);
            return Some(Review(TrimPrefix(files[f].newName, "b/"), position)), at, !reviewWorks;
          }
        }
        assert files[f].hunks[..h + 1][..h] == files[f].hunks[..h];
      }
    }
    return None, at, false;
  }

  // ----- Position and rendered diff -----

  lemma FlattenedMore(hunks: seq<Hunk>)
    requires hunks != []
    ensures Flattened(hunks) == Flattened(hunks[..|hunks| - 1]) + Rendered(hunks[|hunks| - 1])
  {
    assert RenderedAll(hunks)[..|hunks| - 1] == RenderedAll(hunks[..|hunks| - 1]);
  }

  lemma RenderedLength(hunk: Hunk)
    ensures |Rendered(hunk)| == |Pieces(hunk)| + if Terminated(hunk) then 0 else 1
  {
    LastPiece(hunk.body, '\n');
  }

  lemma {:induction false} FlattenedLength(hunks: seq<Hunk>)
    ensures |Flattened(hunks)| == Counted(hunks) + Unterminated(hunks)
  {
    if hunks != [] {
      FlattenedLength(hunks[..|hunks| - 1]);
      FlattenedMore(hunks);
      RenderedLength(hunks[|hunks| - 1]);
    }
  }

  lemma {:induction false} PartInside<T>(parts: seq<seq<T>>, h: nat)
    requires h < |parts|
    ensures Concat(parts[..h]) + parts[h] <= Concat(parts)
  {
    if h < |parts| - 1 {
      PartInside(parts[..|parts| - 1], h);
      assert parts[..|parts| - 1][..h] == parts[..h];
    }
  }

  lemma RenderedInside(hunks: seq<Hunk>, h: nat)
    requires h < |hunks|
    ensures Flattened(hunks[..h]) + Rendered(hunks[h]) <= Flattened(hunks)
  {
    PartInside(RenderedAll(hunks), h);
    assert RenderedAll(hunks)[..h] == RenderedAll(hunks[..h]);
  }

  lemma RenderedAt(hunk: Hunk, p: nat)
    requires p < |BodyLines(hunk)|
    ensures p + 1 < |Rendered(hunk)| && Rendered(hunk)[p + 1] == Text(BodyLines(hunk)[p])
  {
  }

  /** A line with text, as every match is, is not the empty piece after a final newline. */
  lemma MatchIsBodyLine(hunk: Hunk, p: nat)
    requires p < |Pieces(hunk)| && Pieces(hunk)[p] != ""
    ensures p < |BodyLines(hunk)| && BodyLines(hunk)[p] == Pieces(hunk)[p]
  {
  }

  /** Where the line at `p` of hunk `h` stands in the file's rendered diff, the first header being line 0. */
  function IndexInDiff(hunks: seq<Hunk>, h: nat, p: nat): nat
    requires h < |hunks|
  {
    |Flattened(hunks[..h])| + 1 + p
  }

  lemma {:induction false} NoneUnterminated(hunks: seq<Hunk>)
    ensures Unterminated(hunks) == 0 <==> forall h :: 0 <= h < |hunks| ==> Terminated(hunks[h])
  {
    if hunks != [] {
      NoneUnterminated(hunks[..|hunks| - 1]);
    }
  }

  /** The rendered diff has the matched line, or any other line with text, at that index. */
  lemma MatchStandsAtIndex(hunks: seq<Hunk>, h: nat, p: nat)
    requires h < |hunks| && p < |Pieces(hunks[h])| && Pieces(hunks[h])[p] != ""
    ensures IndexInDiff(hunks, h, p) < |Flattened(hunks)|
    ensures Flattened(hunks)[IndexInDiff(hunks, h, p)] == Text(Pieces(hunks[h])[p])
  {
    MatchIsBodyLine(hunks[h], p);
    RenderedAt(hunks[h], p);
    RenderedInside(hunks, h);
    assert (Flattened(hunks[..h]) + Rendered(hunks[h]))[IndexInDiff(hunks, h, p)] == Rendered(hunks[h])[p + 1];
  }

  /**
   The position sent falls short of the place of the matched line in the file's rendered diff by one for each
   earlier hunk of the file whose body lacks a final newline, so it is that place exactly when none does.
   */
  lemma PositionIsIndex(files: seq<FileDiff>, at: Place)
    requires IsPlace(files, at)
    ensures
      var earlier := files[at.f].hunks[..at.h];
      var index := IndexInDiff(files[at.f].hunks, at.h, at.p);
      && PositionOf(files, at) == index - Unterminated(earlier)
      && (PositionOf(files, at) == index <==> forall h :: 0 <= h < |earlier| ==> Terminated(earlier[h]))
  {
    FlattenedLength(files[at.f].hunks[..at.h]);
    NoneUnterminated(files[at.f].hunks[..at.h]);
  }
  /** In a diff only the last hunk of a file can lack the newline at the end of the file. */
  ghost predicate OnlyLastUnterminated(file: FileDiff) {
    forall h :: 0 <= h < |file.hunks| - 1 ==> Terminated(file.hunks[h])
  }

  /** In such a diff the review always stands at the line it is about. */
  lemma PositionIsRight(files: seq<FileDiff>, at: Place)
    requires IsPlace(files, at) && OnlyLastUnterminated(files[at.f]) && PieceAt(files, at) != ""
    ensures
      var all := Flattened(files[at.f].hunks);
      PositionOf(files, at) < |all| && all[PositionOf(files, at)] == Text(PieceAt(files, at))
  {
    PositionIsIndex(files, at);
    MatchStandsAtIndex(files[at.f].hunks, at.h, at.p);
  }
}
