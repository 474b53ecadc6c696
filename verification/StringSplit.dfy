/** Splitting a C string at a separator, copying or in place, and joining the pieces again. */
module StringSplit {

  const NUL: char := '\0'

  /** sep occurs in s at position i. */
  predicate Matches(s: string, sep: string, i: nat) {
    i + |sep| <= |s| && s[i..i + |sep|] == sep
  }

  ghost predicate Contains(s: string, sep: string) {
    exists i :: 0 <= i <= |s| && Matches(s, sep, i)
  }

  /** The pieces from position ptr on, when no match is known before pos. */
  function PiecesFrom(s: string, sep: string, ptr: nat, pos: nat): (r: seq<string>)
    requires sep != "" && ptr <= pos <= |s|
    decreases |s| - pos
  {
    if |s| - pos < |sep| then [s[ptr..]]
    else if Matches(s, sep, pos) then [s[ptr..pos]] + PiecesFrom(s, sep, pos + |sep|, pos + |sep|)
    else PiecesFrom(s, sep, ptr, pos + 1)
  }

  lemma PieceStep(s: string, sep: string, ptr: nat, pos: nat)
    requires sep != "" && ptr <= pos && pos + |sep| <= |s|
    ensures PiecesFrom(s, sep, ptr, pos) ==
            if s[pos..pos + |sep|] == sep then [s[ptr..pos]] + PiecesFrom(s, sep, pos + |sep|, pos + |sep|)
            else PiecesFrom(s, sep, ptr, pos + 1)
  {
  }

  lemma NoneLeft(s: string, sep: string, ptr: nat, pos: nat)
    requires sep != "" && ptr <= pos <= |s| && |s| - pos < |sep|
    ensures PiecesFrom(s, sep, ptr, pos) == [s[ptr..]]
  {
  }

  /** What split puts into the output: nothing for the empty string. */
  function Pieces(s: string, sep: string): (r: seq<string>)
    requires sep != ""
  {
    if s == "" then [] else PiecesFrom(s, sep, 0, 0)
  }

  function Joined(pieces: seq<string>, glue: string): (r: string) {
    if pieces == [] then ""
    else if |pieces| == 1 then pieces[0]
    else pieces[0] + glue + Joined(pieces[1..], glue)
  }

  /** Where piece k begins in the joined string: after the pieces before it and as many glues. */
  function Offset(pieces: seq<string>, glue: string, k: nat): (n: nat)
    requires k <= |pieces|
  {
    if k == 0 then 0 else Offset(pieces, glue, k - 1) + |pieces[k - 1]| + |glue|
  }

  lemma {:induction false} OffsetOfRest(pieces: seq<string>, glue: string, k: nat)
    requires 1 <= k <= |pieces|
    ensures Offset(pieces, glue, k) == |pieces[0]| + |glue| + Offset(pieces[1..], glue, k - 1)
  {
    if k > 1 { OffsetOfRest(pieces, glue, k - 1); }
  }

  /** The joined string piece by piece, for any glue, the empty one included: each piece stands at its
      place, the glue behind every piece but the last, and nothing else. */
  lemma {:induction false} JoinedAt(pieces: seq<string>, glue: string, k: nat)
    requires k < |pieces|
    ensures var s, at := Joined(pieces, glue), Offset(pieces, glue, k);
            && at + |pieces[k]| <= |s| && s[at..at + |pieces[k]|] == pieces[k]
            && (k + 1 < |pieces| ==>
                  at + |pieces[k]| + |glue| <= |s| && s[at + |pieces[k]|..at + |pieces[k]| + |glue|] == glue)
            && (k + 1 == |pieces| ==> at + |pieces[k]| == |s|)
    decreases k
  {
    var s := Joined(pieces, glue);
    if k > 0 {
      var rest, front := Joined(pieces[1..], glue), pieces[0] + glue;
      OffsetOfRest(pieces, glue, k);
      JoinedAt(pieces[1..], glue, k - 1);
      assert s == front + rest;
      ShiftSlices(front, rest, Offset(pieces[1..], glue, k - 1), |pieces[k]|, |glue|);
    } else if |pieces| > 1 {
      assert s[..|pieces[0]|] == pieces[0];
    }
  }

  lemma ShiftSlices(front: string, rest: string, at: nat, n: nat, m: nat)
    ensures at + n <= |rest| ==>
              (front + rest)[|front| + at..|front| + at + n] == rest[at..at + n]
    ensures at + n + m <= |rest| ==>
              (front + rest)[|front| + at + n..|front| + at + n + m] == rest[at + n..at + n + m]
  {
  }

  lemma {:induction false} PiecesFromJoin(s: string, sep: string, ptr: nat, pos: nat)
    requires sep != "" && ptr <= pos <= |s|
    ensures PiecesFrom(s, sep, ptr, pos) != []
    ensures Joined(PiecesFrom(s, sep, ptr, pos), sep) == s[ptr..]
    decreases |s| - pos
  {
    if |s| - pos < |sep| {
    } else if Matches(s, sep, pos) {
      var next := pos + |sep|;
      PiecesFromJoin(s, sep, next, next);
      assert s[ptr..] == s[ptr..pos] + s[pos..next] + s[next..];
      assert PiecesFrom(s, sep, ptr, pos)[1..] == PiecesFrom(s, sep, next, next);
    } else {
      PiecesFromJoin(s, sep, ptr, pos + 1);
    }
  }

  /** join(split(s, sep), sep) == s for every string, the empty one included. */
  lemma JoinOfSplit(s: string, sep: string)
    requires sep != ""
    ensures Joined(Pieces(s, sep), sep) == s
  {
    if s != "" { PiecesFromJoin(s, sep, 0, 0); }
  }

  /** No match of sep starts in s at ptr to pos - 1. */
  ghost predicate NoMatchBetween(s: string, sep: string, ptr: nat, pos: nat) {
    forall i :: ptr <= i < pos ==> !Matches(s, sep, i)
  }

  lemma {:induction false} PiecesFromClean(s: string, sep: string, ptr: nat, pos: nat)
    requires sep != "" && ptr <= pos <= |s| && NoMatchBetween(s, sep, ptr, pos)
    ensures forall k :: 0 <= k < |PiecesFrom(s, sep, ptr, pos)| ==> !Contains(PiecesFrom(s, sep, ptr, pos)[k], sep)
    decreases |s| - pos
  {
    if |s| - pos < |sep| {
      CleanPiece(s, sep, ptr, |s|, pos);
      assert s[ptr..] == s[ptr..|s|];
    } else if Matches(s, sep, pos) {
      CleanPiece(s, sep, ptr, pos, pos);
      PiecesFromClean(s, sep, pos + |sep|, pos + |sep|);
    } else {
      PiecesFromClean(s, sep, ptr, pos + 1);
    }
  }

  /** A match inside s[ptr..end] would be a match of s before pos. */
  lemma CleanPiece(s: string, sep: string, ptr: nat, end: nat, pos: nat)
    requires sep != "" && ptr <= pos <= end <= |s| && end - pos < |sep| && NoMatchBetween(s, sep, ptr, pos)
    ensures !Contains(s[ptr..end], sep)
  {
    forall i: nat | i <= end - ptr ensures !Matches(s[ptr..end], sep, i) {
      MatchInside(s, sep, ptr, end, i);
    }
  }

  lemma MatchInside(s: string, sep: string, a: nat, b: nat, i: nat)
    requires a <= b <= |s|
    ensures Matches(s[a..b], sep, i) ==> Matches(s, sep, a + i)
  {
    if Matches(s[a..b], sep, i) {
      var t := s[a..b][i..i + |sep|];
      forall j | 0 <= j < |sep| ensures s[a + i..a + i + |sep|][j] == t[j] {}
      assert s[a + i..a + i + |sep|] == t;
    }
  }

  lemma PiecesAreClean(s: string, sep: string, k: nat)
    requires sep != "" && k < |Pieces(s, sep)|
    ensures !Contains(Pieces(s, sep)[k], sep)
  {
    PiecesFromClean(s, sep, 0, 0);
  }

  lemma {:induction false} PiecesFromSkips(s: string, sep: string, ptr: nat, pos: nat, k: nat)
    requires sep != "" && ptr <= pos <= k && Matches(s, sep, k) && NoMatchBetween(s, sep, pos, k)
    ensures PiecesFrom(s, sep, ptr, pos) == [s[ptr..k]] + PiecesFrom(s, sep, k + |sep|, k + |sep|)
    decreases k - pos
  {
    if pos < k { PiecesFromSkips(s, sep, ptr, pos + 1, k); }
  }

  lemma ShiftSlice(s: string, i: nat, j: nat, d: nat)
    requires d <= i <= j <= |s|
    ensures s[d..][i - d..j - d] == s[i..j]
    ensures j == |s| ==> s[d..][i - d..] == s[i..]
  {
  }

  lemma {:induction false} PiecesFromShift(s: string, sep: string, ptr: nat, pos: nat, d: nat)
    requires sep != "" && d <= ptr <= pos <= |s|
    ensures PiecesFrom(s, sep, ptr, pos) == PiecesFrom(s[d..], sep, ptr - d, pos - d)
    decreases |s| - pos
  {
    hide PiecesFrom;
    var t := s[d..];
    if |s| - pos < |sep| {
      NoneLeft(s, sep, ptr, pos);
      NoneLeft(t, sep, ptr - d, pos - d);
      ShiftSlice(s, ptr, |s|, d);
    } else {
      PieceStep(s, sep, ptr, pos);
      PieceStep(t, sep, ptr - d, pos - d);
      ShiftSlice(s, pos, pos + |sep|, d);
      ShiftSlice(s, ptr, pos, d);
      if s[pos..pos + |sep|] == sep {
        PiecesFromShift(s, sep, pos + |sep|, pos + |sep|, d);
      } else {
        PiecesFromShift(s, sep, ptr, pos + 1, d);
      }
    }
  }

  /** The first piece ends at the first match, and the other pieces are those of what follows it:
      with the pieces of a string without a match this determines split. */
  lemma PiecesAtFirstMatch(s: string, sep: string, k: nat)
    requires sep != "" && Matches(s, sep, k) && NoMatchBetween(s, sep, 0, k)
    ensures Pieces(s, sep) == [s[..k]] + if k + |sep| == |s| then [""] else Pieces(s[k + |sep|..], sep)
  {
    hide PiecesFrom, NoMatchBetween;
    var next := k + |sep|;
    assert next == |s| ==> PiecesFrom(s, sep, next, next) == [""] by {
      if next == |s| {
        NoneLeft(s, sep, next, next);
        assert s[next..] == "";
      }
    }
    PiecesFromSkips(s, sep, 0, 0, k);
    PiecesFromShift(s, sep, next, next, next);
  }

  lemma {:induction false} PiecesFromNone(s: string, sep: string, pos: nat)
    requires sep != "" && pos <= |s| && NoMatchBetween(s, sep, pos, |s|)
    ensures PiecesFrom(s, sep, 0, pos) == [s]
    decreases |s| - pos
  {
    if |s| - pos >= |sep| { PiecesFromNone(s, sep, pos + 1); }
  }

  lemma PiecesWithoutMatch(s: string, sep: string)
    requires sep != "" && s != "" && !Contains(s, sep)
    ensures Pieces(s, sep) == [s]
  {
    PiecesFromNone(s, sep, 0);
  }

  lemma NotNothing<T>(str: string, separator: string, output: seq<T>)
    requires separator != "" && str != ""
    ensures Pieces(str, separator) != [] && forall more: seq<T> :: more != [] ==> output + more != output
  {
    PiecesFromJoin(str, separator, 0, 0);
  }

  /** The copying overload: appends the pieces to the output. */
  method Split(str: string, separator: string, output: seq<string>) returns (result: seq<string>)
    requires separator != ""
    ensures result == output + Pieces(str, separator)
    ensures str == "" <==> result == output
  {
    if |str| == 0 {
      return output;
    }
    NotNothing(str, separator, output);
    result := output;
    var ptr: nat, pos: nat := 0, 0;
    while pos < |str| && |str| - pos >= |separator|
      invariant ptr <= pos <= |str|
      invariant result + PiecesFrom(str, separator, ptr, pos) == output + Pieces(str, separator)
      decreases |str| - pos
    {
      if str[pos..pos + |separator|] == separator {
        assert result + PiecesFrom(str, separator, ptr, pos)
            == (result + [str[ptr..pos]]) + PiecesFrom(str, separator, pos + |separator|, pos + |separator|);
        result := result + [str[ptr..pos]];
        pos := pos + |separator|;
        ptr := pos;
      } else {
        pos := pos + 1;
      }
    }
    result := result + [str[ptr..]];
  }

  method Join(input: seq<string>, glue: string) returns (output: string)
    ensures output == Joined(input, glue)
  {
    output := "";
    if |input| == 0 {
      return;
    }
    hide Joined, JoinedRest;
    output := input[0];
    var i := 1;
    RestOf(input, glue);
    while i < |input|
      invariant 1 <= i <= |input|
      invariant output + JoinedRest(input[i..], glue) == Joined(input, glue)
    {
      RestStep(input, glue, i);
      output := output + glue;
      output := output + input[i];
      i := i + 1;
    }
    RestEnd(input, glue);
  }

  lemma RestEnd(pieces: seq<string>, glue: string)
    ensures JoinedRest(pieces[|pieces|..], glue) == ""
  {
  }

  lemma RestOf(pieces: seq<string>, glue: string)
    requires pieces != []
    ensures Joined(pieces, glue) == pieces[0] + JoinedRest(pieces[1..], glue)
  {
  }

  lemma RestStep(pieces: seq<string>, glue: string, i: nat)
    requires i < |pieces|
    ensures JoinedRest(pieces[i..], glue) == glue + pieces[i] + JoinedRest(pieces[i + 1..], glue)
  {
    assert pieces[i..][1..] == pieces[i + 1..];
    RestOf(pieces[i..], glue);
  }

  function JoinedRest(pieces: seq<string>, glue: string): (r: string) {
    if pieces == [] then "" else glue + Joined(pieces, glue)
  }

  // ----- in place

  /** The C string that starts at position i of a block. */
  function CString(b: seq<char>, i: nat): (r: string)
    requires i <= |b|
    decreases |b| - i
  {
    if i == |b| || b[i] == NUL then "" else [b[i]] + CString(b, i + 1)
  }

  lemma {:induction false} CStringIs(b: seq<char>, i: nat, e: nat)
    requires i <= e < |b| && b[e] == NUL && forall j :: i <= j < e ==> b[j] != NUL
    ensures CString(b, i) == b[i..e]
    decreases e - i
  {
    if i < e {
      CStringIs(b, i + 1, e);
      assert b[i..e] == [b[i]] + b[i + 1..e];
    }
  }

  /** Piece k starts at starts[k] and is ended by a NUL. */
  ghost predicate Shows(b: seq<char>, start: nat, piece: string) {
    start + |piece| < |b| && b[start..start + |piece|] == piece && b[start + |piece|] == NUL && NUL !in piece
  }

  /** The overload that cuts the string up in place: the pieces are the C strings that start at the
      returned positions, the same pieces as the copying overload gives. */
  method SplitInPlace(block: array<char>, strLen: nat, separator: string, output: seq<nat>) returns (result: seq<nat>)
    requires separator != "" && strLen < block.Length
    requires block[strLen] == NUL && NUL !in block[..strLen] && NUL !in separator
    modifies block
    ensures var pieces := Pieces(old(block[..strLen]), separator);
            && |result| == |output| + |pieces| && result[..|output|] == output
            && forall k :: 0 <= k < |pieces| ==>
                 result[|output| + k] <= block.Length && CString(block[..], result[|output| + k]) == pieces[k]
    ensures strLen == 0 <==> result == output
  {
    if strLen == 0 {
      return output;
    }
    ghost var s := block[..strLen];
    NotNothing(s, separator, output);
    var starts := CutUp(block, strLen, separator);
    result := output + starts;
  }

  /** The loop over a string that is not empty. */
  method CutUp(block: array<char>, strLen: nat, separator: string) returns (starts: seq<nat>)
    requires separator != "" && 0 < strLen < block.Length
    requires block[strLen] == NUL && NUL !in block[..strLen] && NUL !in separator
    modifies block
    ensures var pieces := PiecesFrom(old(block[..strLen]), separator, 0, 0);
            && |starts| == |pieces|
            && forall k :: 0 <= k < |pieces| ==> starts[k] <= block.Length && CString(block[..], starts[k]) == pieces[k]
  {
    hide PiecesFrom, AllShown, Shows, CString;
    ghost var s, done := block[..strLen], [];
    starts := [0];
    var pos := 0;
    ghost var ptr: nat := 0;
    NothingShown(block[..], starts, 0);
    while block[pos] != NUL && strLen - pos >= |separator|
      invariant ptr <= pos <= strLen && Untouched(block[..], s, ptr)
      invariant |starts| == |done| + 1 && starts[|done|] == ptr
      invariant done + PiecesFrom(s, separator, ptr, pos) == PiecesFrom(s, separator, 0, 0)
      invariant AllShown(block[..], starts, done, ptr)
      decreases strLen - pos
    {
      PieceStep(s, separator, ptr, pos);
      SameText(block[..], s, pos, |separator|, ptr);
      if block[pos..pos + |separator|] == separator {
        var next := pos + |separator|;
        OneMoreShown(block[..], starts, done, ptr, pos, s, next);
        Associate(done, s[ptr..pos], PiecesFrom(s, separator, next, next));
        WriteNul(block, pos);
        done := done + [s[ptr..pos]];
        pos := next;
        ptr := next;
        starts := starts + [next];
      } else {
        pos := pos + 1;
      }
    }
    NoneLeft(s, separator, ptr, pos);
    LastPiece(block[..], s, ptr);
    PiecesShown(block[..], starts, done, ptr, s);
  }

  method WriteNul(block: array<char>, pos: nat)
    requires pos < block.Length
    modifies block
    ensures block[..] == old(block[..])[pos := NUL]
  {
    block[pos] := NUL;
  }

  /** From position ptr on the block still holds the string s and its terminator. */
  ghost predicate Untouched(b: seq<char>, s: string, ptr: nat) {
    |s| < |b| && b[|s|] == NUL && forall j :: ptr <= j < |s| ==> b[j] == s[j]
  }

  lemma Associate(a: seq<string>, x: string, b: seq<string>)
    ensures a + ([x] + b) == (a + [x]) + b
  {
  }

  /** In the end every start shows its piece. */
  lemma PiecesShown(b: seq<char>, starts: seq<nat>, done: seq<string>, ptr: nat, s: string)
    requires AllShown(b, starts, done, ptr) && |starts| == |done| + 1 && starts[|done|] == ptr <= |s|
    requires Shows(b, ptr, s[ptr..])
    ensures var pieces := done + [s[ptr..]];
            forall k :: 0 <= k < |pieces| ==> starts[k] <= |b| && CString(b, starts[k]) == pieces[k]
  {
    hide AllShown, Shows, CString;
    var pieces := done + [s[ptr..]];
    forall k | 0 <= k < |pieces| ensures starts[k] <= |b| && CString(b, starts[k]) == pieces[k] {
      if k < |done| { OneShown(b, starts, done, ptr, k); }
      ShownPiece(b, starts[k], pieces[k]);
    }
  }

  lemma NothingShown(b: seq<char>, starts: seq<nat>, ptr: nat)
    requires |starts| > 0
    ensures AllShown(b, starts, [], ptr)
  {
  }

  lemma OneShown(b: seq<char>, starts: seq<nat>, done: seq<string>, ptr: nat, k: nat)
    requires AllShown(b, starts, done, ptr) && k < |done|
    ensures Shows(b, starts[k], done[k])
  {
  }

  lemma SameText(b: seq<char>, s: string, pos: nat, n: nat, ptr: nat)
    requires pos + n <= |s| && ptr <= pos && Untouched(b, s, ptr)
    ensures b[pos..pos + n] == s[pos..pos + n]
  {
  }

  /** The finished pieces, each ended by a NUL before position ptr. */
  ghost predicate AllShown(b: seq<char>, starts: seq<nat>, done: seq<string>, ptr: nat) {
    |done| < |starts| && forall k :: 0 <= k < |done| ==> starts[k] + |done[k]| < ptr && Shows(b, starts[k], done[k])
  }

  /** Writing a NUL at a match ends one more piece and leaves the earlier ones alone. */
  lemma OneMoreShown(b: seq<char>, starts: seq<nat>, done: seq<string>, ptr: nat, pos: nat, s: string, next: nat)
    requires AllShown(b, starts, done, ptr) && |starts| == |done| + 1 && starts[|done|] == ptr
    requires ptr <= pos < |s| && NUL !in s && Untouched(b, s, ptr) && next > pos
    ensures AllShown(b[pos := NUL], starts + [next], done + [s[ptr..pos]], next)
    ensures Untouched(b[pos := NUL], s, next)
  {
    var c, more := b[pos := NUL], done + [s[ptr..pos]];
    forall k | 0 <= k < |more| ensures starts[k] + |more[k]| <= pos && Shows(c, starts[k], more[k]) {
      if k < |done| {
        assert Shows(b, starts[k], done[k]);
        assert c[starts[k]..starts[k] + |done[k]|] == b[starts[k]..starts[k] + |done[k]|];
      } else {
        assert c[ptr..pos] == s[ptr..pos];
      }
    }
  }

  lemma LastPiece(b: seq<char>, s: string, ptr: nat)
    requires ptr <= |s| && NUL !in s && Untouched(b, s, ptr)
    ensures Shows(b, ptr, s[ptr..])
  {
    assert b[ptr..|s|] == s[ptr..];
  }

  lemma ShownPiece(b: seq<char>, start: nat, piece: string)
    requires Shows(b, start, piece)
    ensures start <= |b| && CString(b, start) == piece
  {
    forall j | start <= j < start + |piece| ensures b[j] != NUL {
      assert b[j] == b[start..start + |piece|][j - start];
    }
    CStringIs(b, start, start + |piece|);
  }
}
