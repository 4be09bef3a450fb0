/** Splitting, joining and replacing in strings, and the CSV reader's own splitter. */
module Splitting {
  // ---------- searching ----------

  const NPOS := -1

  predicate MatchAt(s: string, sub: string, i: int) {
    0 <= i && i + |sub| <= |s| && s[i..i + |sub|] == sub
  }

  /** `s.find(sub, from)` */
  function Find(s: string, sub: string, from: nat): (i: int)
    requires from <= |s| && sub != ""
    ensures i == NPOS ==> forall j :: from <= j <= |s| ==> !MatchAt(s, sub, j)
    ensures i != NPOS ==> from <= i && MatchAt(s, sub, i) && forall j :: from <= j < i ==> !MatchAt(s, sub, j)
    decreases |s| - from
  {
    if MatchAt(s, sub, from) then from
    else if from == |s| then NPOS
    else Find(s, sub, from + 1)
  }

  /** `s.find_first_of(set, from)` */
  function FindFirstOf(s: string, chars: set<char>, from: nat): (i: int)
    requires from <= |s|
    ensures i == NPOS ==> forall j :: from <= j < |s| ==> s[j] !in chars
    ensures i != NPOS ==> from <= i < |s| && s[i] in chars && forall j :: from <= j < i ==> s[j] !in chars
    decreases |s| - from
  {
    if from == |s| then NPOS
    else if s[from] in chars then from
    else FindFirstOf(s, chars, from + 1)
  }

  // ---------- what splitting, joining and replacing mean, character by character ----------

  /** Puts a character in front of the first piece. */
  function Prepend(c: char, pieces: seq<string>): (r: seq<string>)
    requires pieces != []
    ensures |r| == |pieces|
  {
    [[c] + pieces[0]] + pieces[1..]
  }

  /** The pieces of s between separator characters. */
  function Fields(s: string, separators: set<char>): (pieces: seq<string>)
    ensures pieces != []
  {
    if s == "" then [""]
    else if s[0] in separators then [""] + Fields(s[1..], separators)
    else Prepend(s[0], Fields(s[1..], separators))
  }

  /** The pieces of s between occurrences of a, taken from the left without overlap. */
  function Pieces(s: string, a: string): (pieces: seq<string>)
    requires a != ""
    ensures pieces != []
    decreases |s|
  {
    if MatchAt(s, a, 0) then [""] + Pieces(s[|a|..], a)
    else if s == "" then [""]
    else Prepend(s[0], Pieces(s[1..], a))
  }

  /** s with every occurrence of a, taken from the left without overlap, replaced by b. */
  function Replaced(s: string, a: string, b: string): string
    requires a != ""
    decreases |s|
  {
    if MatchAt(s, a, 0) then b + Replaced(s[|a|..], a, b)
    else if s == "" then ""
    else [s[0]] + Replaced(s[1..], a, b)
  }

  function Joined(pieces: seq<string>, delimiter: string): string {
    if pieces == [] then "" else if |pieces| == 1 then pieces[0]
    else pieces[0] + delimiter + Joined(pieces[1..], delimiter)
  }

  function NonEmpty(pieces: seq<string>): seq<string> {
    if pieces == [] then []
    else (if pieces[0] == "" then [] else [pieces[0]]) + NonEmpty(pieces[1..])
  }

  function Kept(pieces: seq<string>, keepEmpty: bool): seq<string> {
    if keepEmpty then pieces else NonEmpty(pieces)
  }

  // ---------- laws ----------

  lemma JoinPrepend(c: char, pieces: seq<string>, delimiter: string)
    requires pieces != []
    ensures Joined(Prepend(c, pieces), delimiter) == [c] + Joined(pieces, delimiter)
  {
    if |pieces| > 1 {
      assert Prepend(c, pieces)[1..] == pieces[1..];
    }
  }

  lemma JoinEmptyFirst(pieces: seq<string>, delimiter: string)
    requires pieces != []
    ensures Joined([""] + pieces, delimiter) == delimiter + Joined(pieces, delimiter)
  {
    assert ([""] + pieces)[1..] == pieces;
  }

  /** Replacing is splitting and joining with the replacement. */
  lemma {:induction false} ReplaceIsSplitAndJoin(s: string, a: string, b: string)
    requires a != ""
    ensures Replaced(s, a, b) == Joined(Pieces(s, a), b)
    decreases |s|
  {
    if MatchAt(s, a, 0) {
      ReplaceIsSplitAndJoin(s[|a|..], a, b);
      JoinEmptyFirst(Pieces(s[|a|..], a), b);
    } else if s != "" {
      ReplaceIsSplitAndJoin(s[1..], a, b);
      JoinPrepend(s[0], Pieces(s[1..], a), b);
    }
  }

  lemma {:induction false} ReplaceByItself(s: string, a: string)
    requires a != ""
    ensures Replaced(s, a, a) == s
    decreases |s|
  {
    if MatchAt(s, a, 0) {
      ReplaceByItself(s[|a|..], a);
      assert s == a + s[|a|..];
    } else if s != "" {
      ReplaceByItself(s[1..], a);
      assert s == [s[0]] + s[1..];
    }
  }

  /** Splitting with empty pieces kept loses nothing. */
  lemma {:induction false} JoinSplit(s: string, a: string)
    requires a != ""
    ensures Joined(Pieces(s, a), a) == s
  {
    ReplaceIsSplitAndJoin(s, a, a);
    ReplaceByItself(s, a);
  }

  /** Joining what was joined in two parts. */
  lemma {:induction false} JoinInParts(a: seq<string>, b: seq<string>, delimiter: string)
    requires a != [] && b != []
    ensures Joined(a + b, delimiter) == Joined(a, delimiter) + delimiter + Joined(b, delimiter)
    ensures |a| == 1 ==> Joined(a, delimiter) == a[0]
  {
    if |a| == 1 {
      assert (a + b)[1..] == b;
    } else {
      JoinInParts(a[1..], b, delimiter);
      assert (a + b)[1..] == a[1..] + b;
    }
  }

  /** Dropping empty pieces goes piece by piece: it drops each empty one and keeps every other, in its place. */
  lemma {:induction false} EmptyPiecesDropped(a: seq<string>, b: seq<string>, piece: string)
    ensures NonEmpty(a + b) == NonEmpty(a) + NonEmpty(b)
    ensures NonEmpty([piece]) == if piece == "" then [] else [piece]
  {
    if a == [] {
      assert a + b == b;
    } else {
      EmptyPiecesDropped(a[1..], b, piece);
      assert (a + b)[1..] == a[1..] + b && (a + b)[0] == a[0];
      Regroup(if a[0] == "" then [] else [a[0]], NonEmpty(a[1..]), NonEmpty(b));
    }
  }

  /** Fields hold no separator, and there is one more of them than separators. */
  lemma {:induction false} FieldsShape(s: string, separators: set<char>)
    ensures forall k, j :: 0 <= k < |Fields(s, separators)| && 0 <= j < |Fields(s, separators)[k]| ==>
      Fields(s, separators)[k][j] !in separators
    ensures |Fields(s, separators)| == 1 + |Separators(s, separators)|
    ensures forall j :: 0 <= j < |Separators(s, separators)| ==> Separators(s, separators)[j] in separators
  {
    if s != "" {
      FieldsShape(s[1..], separators);
    }
  }

  function Separators(s: string, separators: set<char>): string {
    if s == "" then "" else (if s[0] in separators then [s[0]] else "") + Separators(s[1..], separators)
  }

  /** Fields and the separators between them, interleaved. */
  function Woven(pieces: seq<string>, between: string): string
    requires |pieces| == |between| + 1
  {
    if between == "" then pieces[0] else pieces[0] + [between[0]] + Woven(pieces[1..], between[1..])
  }

  /** Splitting at separator characters loses nothing but which separator stood where. */
  lemma {:induction false} WeaveFields(s: string, separators: set<char>)
    ensures |Fields(s, separators)| == |Separators(s, separators)| + 1
    ensures Woven(Fields(s, separators), Separators(s, separators)) == s
  {
    if s != "" {
      WeaveFields(s[1..], separators);
      var pieces, between := Fields(s[1..], separators), Separators(s[1..], separators);
      assert s == [s[0]] + s[1..] && "" + between == between;
      WovenPrepend(s[0], pieces, between);
      WovenEmptyFirst(s[0], pieces, between);
    }
  }

  lemma {:induction false} WovenPrepend(c: char, pieces: seq<string>, between: string)
    requires |pieces| == |between| + 1
    ensures Woven(Prepend(c, pieces), between) == [c] + Woven(pieces, between)
  {
    assert Prepend(c, pieces)[1..] == pieces[1..];
  }

  lemma {:induction false} WovenEmptyFirst(c: char, pieces: seq<string>, between: string)
    requires |pieces| == |between| + 1
    ensures Woven([""] + pieces, [c] + between) == [c] + Woven(pieces, between)
  {
    assert ([""] + pieces)[1..] == pieces && ([c] + between)[1..] == between;
  }

  // ---------- skipping to the next occurrence ----------

  lemma {:induction false} FieldsSkip(s: string, separators: set<char>, i: nat)
    requires i <= |s| && forall j :: 0 <= j < i ==> s[j] !in separators
    ensures i == |s| ==> Fields(s, separators) == [s]
    ensures i < |s| && s[i] in separators ==> Fields(s, separators) == [s[..i]] + Fields(s[i + 1..], separators)
    decreases i
  {
    if i > 0 {
      FieldsSkip(s[1..], separators, i - 1);
      assert s == [s[0]] + s[1..];
      if i < |s| && s[i] in separators {
        assert s[1..][i - 1 + 1..] == s[i + 1..];
        assert [s[0]] + s[1..][..i - 1] == s[..i];
      }
    }
  }

  lemma MatchTail(s: string, a: string, j: nat)
    requires s != ""
    ensures MatchAt(s[1..], a, j) <==> MatchAt(s, a, j + 1)
  {
    if j + 1 + |a| <= |s| {
      assert s[1..][j..j + |a|] == s[j + 1..j + 1 + |a|];
    }
  }

  /** No match below i in s means none below i - 1 in its tail. */
  lemma NoMatchTail(s: string, a: string, i: nat)
    requires 0 < i <= |s| && forall j :: 0 <= j < i ==> !MatchAt(s, a, j)
    ensures forall j :: 0 <= j < i - 1 ==> !MatchAt(s[1..], a, j)
    ensures MatchAt(s[1..], a, i - 1) <==> MatchAt(s, a, i)
  {
    forall j | 0 <= j < i
      ensures MatchAt(s[1..], a, j) <==> MatchAt(s, a, j + 1)
    {
      MatchTail(s, a, j);
    }
    assert MatchAt(s[1..], a, i - 1) <==> MatchAt(s, a, (i - 1) + 1);
  }

  lemma {:induction false} PiecesSkip(s: string, a: string, i: nat)
    requires a != "" && i <= |s| && forall j :: 0 <= j < i ==> !MatchAt(s, a, j)
    ensures i == |s| ==> Pieces(s, a) == [s]
    ensures MatchAt(s, a, i) ==> Pieces(s, a) == [s[..i]] + Pieces(s[i + |a|..], a)
    decreases i
  {
    if i > 0 {
      NoMatchTail(s, a, i);
      PiecesSkip(s[1..], a, i - 1);
      assert s == [s[0]] + s[1..];
      assert !MatchAt(s, a, 0);
      if MatchAt(s, a, i) {
        assert s[1..][i - 1 + |a|..] == s[i + |a|..];
        assert [s[0]] + s[1..][..i - 1] == s[..i];
      }
    }
  }

  lemma {:induction false} ReplacedSkip(s: string, a: string, b: string, i: nat)
    requires a != "" && i <= |s| && forall j :: 0 <= j < i ==> !MatchAt(s, a, j)
    ensures i == |s| ==> Replaced(s, a, b) == s
    ensures MatchAt(s, a, i) ==> Replaced(s, a, b) == s[..i] + (b + Replaced(s[i + |a|..], a, b))
    decreases i
  {
    if i > 0 {
      NoMatchTail(s, a, i);
      ReplacedSkip(s[1..], a, b, i - 1);
      assert s == [s[0]] + s[1..];
      assert !MatchAt(s, a, 0);
      if MatchAt(s, a, i) {
        assert s[1..][i - 1 + |a|..] == s[i + |a|..];
        assert [s[0]] + s[1..][..i - 1] == s[..i];
        Regroup([s[0]], s[1..][..i - 1], b + Replaced(s[i + |a|..], a, b));
      }
    }
  }

  // ---------- the source's loops ----------

  lemma {:induction false} NonEmptyAppend(pieces: seq<string>, last: string)
    ensures NonEmpty(pieces + [last]) == NonEmpty(pieces) + (if last == "" then [] else [last])
  {
    if pieces == [] {
      assert pieces + [last] == [last];
    } else {
      NonEmptyAppend(pieces[1..], last);
      assert (pieces + [last])[1..] == pieces[1..] + [last];
    }
  }

  lemma KeptAppend(pieces: seq<string>, last: string, keepEmpty: bool)
    ensures Kept(pieces + [last], keepEmpty)
         == Kept(pieces, keepEmpty) + (if |last| > 0 || keepEmpty then [last] else [])
  {
    NonEmptyAppend(pieces, last);
  }

  /** One round of a splitter: the text up to the next separator is one field. */
  lemma NextField(s: string, separators: set<char>, done: seq<string>, begin: nat, stop: nat)
    requires begin <= stop <= |s| && Fields(s, separators) == done + Fields(s[begin..], separators)
    requires forall j :: begin <= j < stop ==> s[j] !in separators
    ensures stop == |s| ==> Fields(s, separators) == done + [s[begin..stop]]
    ensures stop < |s| && s[stop] in separators ==>
      Fields(s, separators) == (done + [s[begin..stop]]) + Fields(s[stop + 1..], separators)
  {
    var rest := s[begin..];
    assert stop < |s| ==> rest[stop - begin] == s[stop] && rest[stop - begin + 1..] == s[stop + 1..];
    assert rest[..stop - begin] == s[begin..stop];
    FieldsSkip(rest, separators, stop - begin);
    if stop < |s| && s[stop] in separators {
      Regroup(done, [s[begin..stop]], Fields(s[stop + 1..], separators));
    } else if stop == |s| {
      assert rest == s[begin..stop];
    }
  }

  lemma Regroup<T>(x: seq<T>, y: seq<T>, z: seq<T>)
    ensures x + (y + z) == (x + y) + z
  {
  }

  /** A search from `from` is a search in the rest of the string. */
  lemma MatchFrom(s: string, a: string, from: nat, j: nat)
    requires from <= |s|
    ensures MatchAt(s[from..], a, j) <==> MatchAt(s, a, from + j)
  {
    if j + |a| <= |s| - from {
      assert s[from..][j..j + |a|] == s[from + j..from + j + |a|];
    }
  }

  ghost predicate NoMatchBelow(s: string, a: string, from: nat, end: int) {
    forall j :: from <= j < end ==> !MatchAt(s, a, j)
  }

  lemma MatchInPrefix(s: string, n: nat, a: string, j: nat)
    requires n <= |s|
    ensures MatchAt(s[..n], a, j) ==> MatchAt(s, a, j)
  {
    if j + |a| <= n {
      assert s[..n][j..j + |a|] == s[j..j + |a|];
    }
  }

  /** No piece holds an occurrence of the separator. */
  lemma {:induction false} PiecesShape(s: string, a: string, k: nat, j: nat)
    requires a != "" && k < |Pieces(s, a)|
    ensures !MatchAt(Pieces(s, a)[k], a, j)
    decreases |s|
  {
    hide Pieces, Find;
    var i := Find(s, a, 0);
    var end := if i == NPOS then |s| else i;
    assert NoMatchBelow(s, a, 0, end);
    PiecesSkip(s, a, end);
    if k > 0 {
      PiecesShape(s[i + |a|..], a, k - 1, j);
    } else {
      MatchInPrefix(s, end, a, j);
    }
  }

  /** Each piece but the last ends at the first occurrence of the separator from its start on. */
  lemma {:induction false} PiecesLeftmost(s: string, a: string, k: nat, j: nat)
    requires a != "" && k + 1 < |Pieces(s, a)| && j < |Pieces(s, a)[k]|
    ensures !MatchAt(Pieces(s, a)[k] + a, a, j)
    decreases |s|
  {
    hide Pieces, Find;
    var i := Find(s, a, 0);
    var end := if i == NPOS then |s| else i;
    assert NoMatchBelow(s, a, 0, end);
    PiecesSkip(s, a, end);
    if k > 0 {
      PiecesLeftmost(s[i + |a|..], a, k - 1, j);
    } else {
      assert s[..end] + a == s[..end + |a|];
      MatchInPrefix(s, end + |a|, a, j);
    }
  }

  lemma NoMatchFrom(s: string, a: string, from: nat, end: nat)
    requires from <= end <= |s| && NoMatchBelow(s, a, from, end)
    ensures NoMatchBelow(s[from..], a, 0, end - from)
  {
    forall j | 0 <= j < end - from
      ensures !MatchAt(s[from..], a, j)
    {
      MatchFrom(s, a, from, j);
    }
  }

  /** One piece and what follows it, both named by the caller. */
  lemma PieceAndTail(s: string, a: string, i: nat, piece: string, tail: string)
    requires a != "" && i <= |s| && NoMatchBelow(s, a, 0, i) && MatchAt(s, a, i)
    requires piece == s[..i] && tail == s[i + |a|..]
    ensures Pieces(s, a) == [piece] + Pieces(tail, a)
  {
    PiecesSkip(s, a, i);
  }

  lemma PiecesFrom(s: string, a: string, begin: nat, end: nat)
    requires a != "" && begin <= end <= |s| && NoMatchBelow(s, a, begin, end)
    ensures end == |s| ==> Pieces(s[begin..], a) == [s[begin..]]
    ensures MatchAt(s, a, end) ==> Pieces(s[begin..], a) == [s[begin..end]] + Pieces(s[end + |a|..], a)
  {
    NoMatchFrom(s, a, begin, end);
    MatchFrom(s, a, begin, end - begin);
    if MatchAt(s, a, end) {
      PieceAndTail(s[begin..], a, end - begin, s[begin..end], s[end + |a|..]);
    } else if end == |s| {
      PiecesSkip(s[begin..], a, end - begin);
    }
  }

  /** One round of split: the text up to the next occurrence is one piece. */
  lemma NextPiece(s: string, a: string, whole: seq<string>, done: seq<string>, begin: nat, end: nat)
    requires a != "" && begin <= end <= |s| && NoMatchBelow(s, a, begin, end)
    requires whole == done + Pieces(s[begin..], a)
    ensures end == |s| ==> whole == done + [s[begin..]]
    ensures MatchAt(s, a, end) ==> whole == (done + [s[begin..end]]) + Pieces(s[end + |a|..], a)
  {
    PiecesFrom(s, a, begin, end);
    if MatchAt(s, a, end) {
      Regroup(done, [s[begin..end]], Pieces(s[end + |a|..], a));
    }
  }

  lemma ReplacedFrom(s: string, a: string, b: string, pos: nat, end: nat)
    requires a != "" && pos <= end <= |s| && NoMatchBelow(s, a, pos, end)
    ensures end == |s| ==> Replaced(s[pos..], a, b) == s[pos..]
    ensures MatchAt(s, a, end) ==> Replaced(s[pos..], a, b) == s[pos..end] + (b + Replaced(s[end + |a|..], a, b))
  {
    NoMatchFrom(s, a, pos, end);
    MatchFrom(s, a, pos, end - pos);
    var rest := s[pos..];
    assert rest[..end - pos] == s[pos..end];
    if MatchAt(s, a, end) {
      assert rest[end - pos + |a|..] == s[end + |a|..];
    }
    ReplacedSkip(rest, a, b, end - pos);
  }

  /** One round of replace on the current string: `whole` is the final result. */
  lemma NextReplacement(s: string, a: string, b: string, whole: string, pos: nat, end: nat)
    requires a != "" && pos <= end <= |s| && NoMatchBelow(s, a, pos, end)
    requires whole == s[..pos] + Replaced(s[pos..], a, b)
    ensures end == |s| ==> whole == s
    ensures MatchAt(s, a, end) ==> whole == (s[..end] + b) + Replaced(s[end + |a|..], a, b)
  {
    ReplacedFrom(s, a, b, pos, end);
    assert s[..pos] + s[pos..] == s;
    if MatchAt(s, a, end) {
      var tail := Replaced(s[end + |a|..], a, b);
      Regroup(s[..pos], s[pos..end], b + tail);
      assert s[..pos] + s[pos..end] == s[..end];
      Regroup(s[..end], b, tail);
    }
  }

  method SplitToken(str: string, separators: set<char>, keepEmpty: bool) returns (results: seq<string>)
    ensures results == Kept(Fields(str, separators), keepEmpty)
  {
    hide Fields, FindFirstOf;
    assert str[0..] == str;
    results := [];
    var begin, end := 0, 0;
    ghost var done: seq<string> := [];
    while end != NPOS
      invariant end != NPOS ==> 0 <= begin <= |str| && Fields(str, separators) == done + Fields(str[begin..], separators)
      invariant end == NPOS ==> Fields(str, separators) == done
      invariant results == Kept(done, keepEmpty)
      decreases if end == NPOS then 0 else |str| - begin + 1
    {
      end := FindFirstOf(str, separators, begin);
      var length := if end != NPOS then end - begin else |str| - (if begin < |str| then begin else |str|);
      NextField(str, separators, done, begin, begin + length);
      KeptAppend(done, str[begin..begin + length], keepEmpty);
      done := done + [str[begin..begin + length]];
      if length > 0 || keepEmpty {
        results := results + [str[begin..begin + length]];
      }
      begin := end + 1;
    }
  }

  method Split(str: string, separator: string, keepEmpty: bool) returns (results: seq<string>)
    ensures separator == "" ==> results == []
    ensures separator != "" ==> results == Kept(Pieces(str, separator), keepEmpty)
  {
    hide Pieces, Find;
    assert str[0..] == str;
    results := [];
    var begin, end := 0, 0;
    if separator == "" {
      return;
    }
    ghost var done: seq<string> := [];
    while true
      invariant 0 <= begin <= |str| && Pieces(str, separator) == done + Pieces(str[begin..], separator)
      invariant results == Kept(done, keepEmpty)
      decreases |str| - begin
    {
      end := Find(str, separator, begin);
      NextPiece(str, separator, Pieces(str, separator), done, begin, if end == NPOS then |str| else end);
      if end == NPOS {
        KeptAppend(done, str[begin..], keepEmpty);
        if |str| - begin > 0 || keepEmpty {
          results := results + [str[begin..]];
        }
        break;
      }
      KeptAppend(done, str[begin..end], keepEmpty);
      done := done + [str[begin..end]];
      var length := end - begin;
      if length > 0 || keepEmpty {
        results := results + [str[begin..end]];
      }
      begin := end + |separator|;
    }
  }

  /** The string the source changes in place; `pos` always lies behind what has been replaced. */
  method Replace(str: string, subject: string, replacement: string) returns (s: string)
    ensures subject == "" ==> s == str
    ensures subject != "" ==> s == Replaced(str, subject, replacement)
  {
    s := str;
    if subject == "" {
      return;
    }
    var pos := 0;
    while true
      invariant 0 <= pos <= |s|
      invariant Replaced(str, subject, replacement) == s[..pos] + Replaced(s[pos..], subject, replacement)
      decreases |s| - pos
    {
      var found := Find(s, subject, pos);
      NextReplacement(s, subject, replacement, Replaced(str, subject, replacement), pos, if found == NPOS then |s| else found);
      if found == NPOS {
        break;
      }
      ghost var kept, rest := s[..found], s[found + |subject|..];
      s := s[..found] + s[found + |subject|..];
      s := s[..found] + replacement + s[found..];
      pos := found + |replacement|;
      assert s[..pos] == kept + replacement && s[pos..] == rest;
    }
  }

  method Join(strings: seq<string>, delimiter: string) returns (str: string)
    ensures str == Joined(strings, delimiter)
  {
    str := "";
    var i := 0;
    while i < |strings|
      invariant 0 <= i <= |strings|
      invariant str == Joined(strings[..i], delimiter)
    {
      JoinAppend(strings[..i], strings[i], delimiter);
      assert strings[..i] + [strings[i]] == strings[..i + 1];
      if i != 0 {
        str := str + delimiter;
      }
      str := str + strings[i];
      i := i + 1;
    }
    assert strings[..i] == strings;
  }

  lemma {:induction false} JoinAppend(pieces: seq<string>, last: string, delimiter: string)
    ensures Joined(pieces + [last], delimiter)
         == if pieces == [] then last else Joined(pieces, delimiter) + delimiter + last
  {
    if |pieces| > 1 {
      JoinAppend(pieces[1..], last, delimiter);
      assert (pieces + [last])[1..] == pieces[1..] + [last];
    } else if |pieces| == 1 {
      assert (pieces + [last])[1..] == [last];
    }
  }

  /** The CSV reader's splitter, which appends to the vector it is given. */
  method SplitIntoSubstring(data: string, splitPoints: seq<char>, given: seq<string>) returns (substrings: seq<string>)
    ensures substrings == given + Fields(data, set c | c in splitPoints)
  {
    ghost var separators := set c | c in splitPoints;
    substrings := given;
    var startPos, endPos, isFinished := 0, 0, false;
    ghost var done: seq<string> := [];
    while !isFinished
      invariant !isFinished ==> 0 <= startPos <= |data| && Fields(data, separators) == done + Fields(data[startPos..], separators)
      invariant isFinished ==> Fields(data, separators) == done
      invariant substrings == given + done
      decreases if isFinished then 0 else |data| - startPos + 1
    {
      var temporalEnd := |data|;
      var i := 0;
      while i < |splitPoints|
        invariant 0 <= i <= |splitPoints|
        invariant startPos <= temporalEnd <= |data|
        invariant temporalEnd < |data| ==> data[temporalEnd] in splitPoints
        invariant forall k, j :: 0 <= k < i && startPos <= j < temporalEnd ==> data[j] != splitPoints[k]
      {
        var tempPos := FindFirstOf(data, {splitPoints[i]}, startPos);
        if tempPos != NPOS && tempPos < temporalEnd {
          temporalEnd := tempPos;
        }
        i := i + 1;
      }
      endPos := temporalEnd;
      NextField(data, separators, done, startPos, endPos);
      isFinished := |data| == endPos;
      substrings := substrings + [data[startPos..endPos]];
      done := done + [data[startPos..endPos]];
      startPos := endPos + 1;
    }
  }

  /** The two splitters agree: an empty vector and empty pieces kept. */
  method SplittersAgree(data: string, splitPoints: seq<char>) returns (a: seq<string>, b: seq<string>)
    ensures a == Fields(data, set c | c in splitPoints)
    ensures b == a
  {
    a := SplitIntoSubstring(data, splitPoints, []);
    b := SplitToken(data, set c | c in splitPoints, true);
  }
}
