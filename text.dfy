/** The string operations of Python's `str` and `re` that the chunking code calls
    (`split`, `re.split` on a literal pattern and before a literal marker, `endswith`, and
    `replace` as a join of a split), restricted to metacharacter-free patterns, together
    with `Join`, `Count`, `Contains`, `Concat` and `Occurrences`, the vocabulary the
    contracts are stated in, and the facts proved about them. */
module Text {

  /** `s.endswith(suffix)` */
  predicate EndsWith(s: string, suffix: string)
  {
    |suffix| <= |s| && s[|s| - |suffix|..] == suffix
  }

  /** `p in s`: `p` occurs in `s` at some position. */
  predicate Contains(s: string, p: string)
    decreases |s|
  {
    p <= s || (s != [] && Contains(s[1..], p))
  }

  /** The position of the first `c` in `s`, or `|s|` when `s` has none. */
  function IndexOf(s: string, c: char): (i: nat)
    ensures i <= |s|
    ensures i < |s| ==> s[i] == c
    ensures forall j :: 0 <= j < i ==> s[j] != c
    decreases |s|
  {
    if s == [] || s[0] == c then 0 else 1 + IndexOf(s[1..], c)
  }

  /** `s.split(sep)`, and `re.split(sep, s)` for a pattern without metacharacters:
      the pieces between the leftmost non-overlapping occurrences of `sep`. */
  function Split(s: string, sep: string): (parts: seq<string>)
    requires sep != []
    ensures |parts| >= 1
    decreases |s|
  {
    if sep <= s then [""] + Split(s[|sep|..], sep)
    else if s == [] then [""]
    else
      var rest := Split(s[1..], sep);
      [[s[0]] + rest[0]] + rest[1..]
  }

  /** `sep.join(parts)` */
  function Join(parts: seq<string>, sep: string): string
    decreases |parts|
  {
    if |parts| == 0 then ""
    else if |parts| == 1 then parts[0]
    else parts[0] + sep + Join(parts[1..], sep)
  }

  /** `s.count(sep)`: the number of leftmost non-overlapping occurrences of `sep`. */
  function Count(s: string, sep: string): nat
    requires sep != []
    decreases |s|
  {
    if sep <= s then 1 + Count(s[|sep|..], sep)
    else if s == [] then 0
    else Count(s[1..], sep)
  }

  /** In `piece + sep`, no occurrence of `sep` starts inside `piece`: the first one is the
      appended one. */
  ghost predicate EndsAtSeparator(piece: string, sep: string)
  {
    forall i :: 0 <= i < |piece| ==> !(sep <= (piece + sep)[i..])
  }

  /** `re.split("(?=" + marker + ")", s)`: a zero-width cut in front of every position at
      which `marker` starts, including position 0 (which gives a leading empty piece). */
  function SplitBefore(s: string, marker: string): (parts: seq<string>)
    requires marker != []
    ensures |parts| >= 1
    decreases |s|
  {
    if s == [] then [""]
    else
      var rest := SplitBefore(s[1..], marker);
      var merged := [[s[0]] + rest[0]] + rest[1..];
      if marker <= s then [""] + merged else merged
  }

  /** The number of positions of `s` at which `marker` starts (overlapping ones included). */
  function Occurrences(s: string, marker: string): nat
    requires marker != []
    decreases |s|
  {
    if s == [] then 0
    else (if marker <= s then 1 else 0) + Occurrences(s[1..], marker)
  }

  /** The first position at which `marker` starts, or `|s|` when it never does. */
  function FirstMatch(s: string, marker: string): (i: nat)
    requires marker != []
    ensures i <= |s|
    ensures i < |s| ==> marker <= s[i..]
    ensures forall j :: 0 <= j < i ==> !(marker <= s[j..])
    decreases |s|
  {
    if s == [] || marker <= s then 0
    else
      var i := FirstMatch(s[1..], marker);
      assert forall j :: 1 <= j <= |s| ==> s[j..] == s[1..][j - 1..];
      1 + i
  }

  /** `"".join(parts)` */
  function Concat(parts: seq<string>): string
    decreases |parts|
  {
    if parts == [] then "" else parts[0] + Concat(parts[1..])
  }

  /** `[y for x in xs for y in f(x)]`: what `f` gives for each element, in order. */
  function FlatMap<A, B>(f: A -> seq<B>, xs: seq<A>): seq<B>
    decreases |xs|
  {
    if xs == [] then [] else FlatMap(f, xs[..|xs| - 1]) + f(xs[|xs| - 1])
  }

  /** No proper suffix of `marker` is also a prefix of it, so two occurrences of `marker`
      never overlap. */
  ghost predicate BorderFree(marker: string)
  {
    forall j :: 0 < j < |marker| ==> marker[j..] != marker[..|marker| - j]
  }

  // ---------------------------------------------------------------- Split and Join

  /** Joining the pieces of a split with the same separator gives back the input. */
  lemma {:induction false} SplitThenJoin(s: string, sep: string)
    requires sep != []
    ensures Join(Split(s, sep), sep) == s
    decreases |s|
  {
    if sep <= s {
      var tail := s[|sep|..];
      SplitThenJoin(tail, sep);
      JoinCons("", Split(tail, sep), sep);
      PrefixThenRest(sep, s);
    } else if s != [] {
      SplitThenJoin(s[1..], sep);
      SplitUnmatched(s, sep);
      JoinPrependChar(s[0], Split(s[1..], sep), sep);
      PrefixThenRest([s[0]], s);
    }
  }

  /** A string is its prefix followed by the rest. */
  lemma PrefixThenRest(p: string, s: string)
    requires p <= s
    ensures s == p + s[|p|..]
  {
  }

  /** Joining a first part and at least one more puts the separator between them. */
  lemma JoinCons(head: string, rest: seq<string>, sep: string)
    requires rest != []
    ensures Join([head] + rest, sep) == head + sep + Join(rest, sep)
  {
    assert ([head] + rest)[1..] == rest;
  }

  /** A character put in front of the first part ends up in front of the joined string. */
  lemma JoinPrependChar(c: char, parts: seq<string>, sep: string)
    requires parts != []
    ensures Join([[c] + parts[0]] + parts[1..], sep) == [c] + Join(parts, sep)
  {
    if |parts| > 1 {
      JoinCons([c] + parts[0], parts[1..], sep);
    }
  }

  /** Where the separator does not start, the first character joins the first piece. */
  lemma SplitUnmatched(s: string, sep: string)
    requires sep != [] && s != [] && !(sep <= s)
    ensures Split(s, sep) == [[s[0]] + Split(s[1..], sep)[0]] + Split(s[1..], sep)[1..]
  {
  }

  /** A split gives one piece more than there are separators. */
  lemma {:induction false} SplitCount(s: string, sep: string)
    requires sep != []
    ensures |Split(s, sep)| == Count(s, sep) + 1
    decreases |s|
  {
    if sep <= s {
      SplitCount(s[|sep|..], sep);
    } else if s != [] {
      SplitCount(s[1..], sep);
    }
  }

  /** The first piece of a split is a prefix of the input. */
  lemma {:induction false} SplitHeadIsPrefix(s: string, sep: string)
    requires sep != []
    ensures Split(s, sep)[0] <= s
    decreases |s|
  {
    if !(sep <= s) && s != [] {
      SplitHeadIsPrefix(s[1..], sep);
      var head := Split(s[1..], sep)[0];
      assert [s[0]] + head == s[..|head| + 1];
    }
  }

  /** No piece of a split contains the separator. */
  lemma {:induction false} SplitPiecesAvoidSeparator(s: string, sep: string)
    requires sep != []
    ensures forall k :: 0 <= k < |Split(s, sep)| ==> !Contains(Split(s, sep)[k], sep)
    decreases |s|
  {
    if sep <= s {
      SplitPiecesAvoidSeparator(s[|sep|..], sep);
      assert !Contains("", sep);
    } else if s == [] {
      assert !Contains("", sep);
    } else {
      SplitPiecesAvoidSeparator(s[1..], sep);
      SplitHeadIsPrefix(s[1..], sep);
      var rest := Split(s[1..], sep);
      var head := [s[0]] + rest[0];
      assert head == s[..|head|];
      assert head[1..] == rest[0];
      assert |sep| <= |head| ==> head[..|sep|] == s[..|sep|];
      assert !Contains(head, sep);
    }
  }

  /** A piece followed by the separator is cut off as the first piece. */
  lemma {:induction false} SplitAfterPiece(piece: string, sep: string, rest: string)
    requires sep != []
    requires EndsAtSeparator(piece, sep)
    ensures Split(piece + sep + rest, sep) == [piece] + Split(rest, sep)
    decreases |piece|
  {
    var s := piece + sep + rest;
    if piece == [] {
      AppendAfterPrefix([], sep, rest);
      SplitMatched(s, sep);
    } else {
      var tail := piece[1..];
      EndsAtSeparatorTail(piece, sep, rest);
      SplitAfterPiece(tail, sep, rest);
      SplitUnmatched(s, sep);
      AppendAfterPrefix(piece, sep, rest);
      PrefixThenRest([piece[0]], piece);
      ConsParts(tail, Split(rest, sep));
    }
  }

  /** Where the separator starts, it cuts off an empty piece. */
  lemma SplitMatched(s: string, sep: string)
    requires sep != [] && sep <= s
    ensures Split(s, sep) == [""] + Split(s[|sep|..], sep)
  {
  }

  /** Taking apart `p + q + r`: its first character and rest, and what follows `p + q`. */
  lemma AppendAfterPrefix(p: string, q: string, r: string)
    ensures p != [] ==> (p + q + r)[0] == p[0] && (p + q + r)[1..] == p[1..] + q + r
    ensures p == [] ==> q <= p + q + r && (p + q + r)[|q|..] == r
  {
  }

  /** The first element and the rest of `a + b` when `a` is not empty. */
  lemma TailOfAppend<T>(a: seq<T>, b: seq<T>)
    requires a != []
    ensures (a + b)[0] == a[0] && (a + b)[1..] == a[1..] + b
  {
  }

  /** The prefix of a sequence as long as the sequence is the sequence. */
  lemma PrefixWhole<T>(xs: seq<T>)
    ensures xs[..|xs|] == xs
  {
  }

  /** The first element and the rest of `[x] + xs`. */
  lemma ConsParts<T>(x: T, xs: seq<T>)
    ensures ([x] + xs)[0] == x && ([x] + xs)[1..] == xs
  {
  }

  /** A piece that ends at the separator does not start with it, and neither does its tail
      run into it early. */
  lemma EndsAtSeparatorTail(piece: string, sep: string, rest: string)
    requires sep != [] && piece != [] && EndsAtSeparator(piece, sep)
    ensures !(sep <= piece + sep + rest)
    ensures EndsAtSeparator(piece[1..], sep)
  {
    assert (piece + sep)[0..] == piece + sep;
    assert (piece + sep + rest)[..|sep|] == (piece + sep)[..|sep|];
    var tail := piece[1..];
    forall i | 0 <= i < |tail|
      ensures !(sep <= (tail + sep)[i..])
    {
      assert (tail + sep)[i..] == (piece + sep)[i + 1..];
    }
  }

  /** A string that does not contain the separator splits into itself. */
  lemma {:induction false} SplitOfUnseparated(s: string, sep: string)
    requires sep != []
    requires !Contains(s, sep)
    ensures Split(s, sep) == [s]
    decreases |s|
  {
    if s != [] {
      SplitOfUnseparated(s[1..], sep);
      assert [s[0]] + s[1..] == s;
    }
  }

  /** Splitting undoes joining when each piece but the last ends at its separator and the
      last holds none. */
  lemma {:induction false} JoinThenSplit(parts: seq<string>, sep: string)
    requires sep != [] && |parts| >= 1
    requires forall k :: 0 <= k < |parts| - 1 ==> EndsAtSeparator(parts[k], sep)
    requires !Contains(parts[|parts| - 1], sep)
    ensures Split(Join(parts, sep), sep) == parts
    decreases |parts|
  {
    if |parts| == 1 {
      SplitOfUnseparated(parts[0], sep);
    } else {
      JoinThenSplit(parts[1..], sep);
      SplitAfterPiece(parts[0], sep, Join(parts[1..], sep));
      assert parts == [parts[0]] + parts[1..];
    }
  }

  /** The separator count is zero exactly when the separator does not occur. */
  lemma {:induction false} CountZeroIffAbsent(s: string, sep: string)
    requires sep != []
    ensures Count(s, sep) == 0 <==> !Contains(s, sep)
    decreases |s|
  {
    if !(sep <= s) && s != [] {
      CountZeroIffAbsent(s[1..], sep);
    }
  }

  /** Splitting on one character cuts at its first occurrence and splits the remainder. */
  lemma {:induction false} SplitAtChar(s: string, c: char)
    ensures var i := IndexOf(s, c);
      Split(s, [c]) == if i == |s| then [s] else [s[..i]] + Split(s[i + 1..], [c])
    decreases |s|
  {
    if s != [] && s[0] != c {
      SplitAtChar(s[1..], c);
      var i := IndexOf(s[1..], c);
      assert [s[0]] + s[1..] == s;
      if i < |s| - 1 {
        assert [s[0]] + s[1..][..i] == s[..i + 1];
        assert s[1..][i + 1..] == s[i + 2..];
      }
    }
  }
  /** Split at a character, the first piece runs up to the first occurrence of it. */
  lemma FirstPieceAtChar(s: string, c: char)
    ensures Split(s, [c])[0] == s[..IndexOf(s, c)]
  {
    SplitAtChar(s, c);
    if IndexOf(s, c) == |s| {
      assert s[..|s|] == s;
    }
  }

  /** There is a second piece exactly when the character occurs, and it runs from just after
      the first occurrence up to the next one. */
  lemma SecondPieceAtChar(s: string, c: char)
    ensures var i := IndexOf(s, c);
      && (|Split(s, [c])| >= 2 <==> i < |s|)
      && (i < |s| ==> Split(s, [c])[1] == s[i + 1..][..IndexOf(s[i + 1..], c)])
  {
    SplitAtChar(s, c);
    var i := IndexOf(s, c);
    if i < |s| {
      FirstPieceAtChar(s[i + 1..], c);
    }
  }


  /** The first `c` in `a + b` is the first one in `b` when `a` has none. */
  lemma {:induction false} IndexOfAfter(a: string, b: string, c: char)
    requires c !in a
    ensures IndexOf(a + b, c) == |a| + IndexOf(b, c)
    decreases |a|
  {
    if a == [] {
      assert a + b == b;
    } else {
      IndexOfAfter(a[1..], b, c);
      assert (a + b)[1..] == a[1..] + b;
    }
  }

  // ---------------------------------------------------------------- SplitBefore

  /** The pieces of a split before a marker, laid end to end, give back the input. */
  lemma {:induction false} SplitBeforeConcat(s: string, marker: string)
    requires marker != []
    ensures Concat(SplitBefore(s, marker)) == s
    decreases |s|
  {
    if s != [] {
      SplitBeforeConcat(s[1..], marker);
      var rest := SplitBefore(s[1..], marker);
      var merged := [[s[0]] + rest[0]] + rest[1..];
      assert merged[1..] == rest[1..];
      assert Concat(rest) == rest[0] + Concat(rest[1..]);
      assert Concat(merged) == s;
      assert ([""] + merged)[1..] == merged;
    }
  }

  /** A split before a marker gives one piece more than the marker has occurrences. */
  lemma {:induction false} SplitBeforeCount(s: string, marker: string)
    requires marker != []
    ensures |SplitBefore(s, marker)| == Occurrences(s, marker) + 1
    decreases |s|
  {
    if s != [] {
      SplitBeforeCount(s[1..], marker);
    }
  }

  /** The first piece of a split before a marker is everything before the first match. */
  lemma {:induction false} SplitBeforeHead(s: string, marker: string)
    requires marker != []
    ensures SplitBefore(s, marker)[0] == s[..FirstMatch(s, marker)]
    decreases |s|
  {
    if s != [] && !(marker <= s) {
      var t := s[1..];
      SplitBeforeHead(t, marker);
      UnmatchedFirst(s, marker);
      PrependSlice(s, FirstMatch(t, marker));
    }
  }

  /** Where the marker does not start, the first character joins the first piece, and the
      first match is one position further on. */
  lemma UnmatchedFirst(s: string, marker: string)
    requires marker != [] && s != [] && !(marker <= s)
    ensures SplitBefore(s, marker)[0] == [s[0]] + SplitBefore(s[1..], marker)[0]
    ensures FirstMatch(s, marker) == FirstMatch(s[1..], marker) + 1
  {
  }

  /** The first character followed by a prefix of the rest is a prefix of `s`. */
  lemma PrependSlice(s: string, i: nat)
    requires i < |s|
    ensures [s[0]] + s[1..][..i] == s[..i + 1]
  {
  }

  /** After a match of a border-free marker, no other match starts within it. */
  lemma NoOverlapAfterMatch(s: string, marker: string, j: nat)
    requires BorderFree(marker) && marker <= s && 0 < j < |marker|
    ensures !(marker <= s[j..])
  {
    assert s[j..|marker|] == marker[j..];
  }

  /** When a border-free marker starts `s`, the piece that begins at position 0 runs at
      least to the end of that match, so it starts with the marker. */
  lemma MatchedPieceIsMarked(s: string, marker: string)
    requires marker != [] && BorderFree(marker) && marker <= s
    ensures marker <= [s[0]] + SplitBefore(s[1..], marker)[0]
  {
    var t := s[1..];
    NoMatchInsideMatch(s, marker);
    SplitBeforeHead(t, marker);
    var i := FirstMatch(t, marker);
    assert i + 1 >= |marker|;
    assert [s[0]] + t[..i] == s[..i + 1];
  }

  /** With a border-free marker, every piece after the first starts with the marker. */
  lemma {:induction false} SplitBeforeMarked(s: string, marker: string)
    requires marker != [] && BorderFree(marker)
    ensures forall k :: 1 <= k < |SplitBefore(s, marker)| ==> marker <= SplitBefore(s, marker)[k]
    decreases |s|
  {
    if s != [] {
      SplitBeforeMarked(s[1..], marker);
      if marker <= s {
        MatchedPieceIsMarked(s, marker);
      }
    }
  }

  /** A marker has no occurrence exactly when it is not contained. */
  lemma {:induction false} OccurrencesZeroIffAbsent(s: string, marker: string)
    requires marker != []
    ensures Occurrences(s, marker) == 0 <==> !Contains(s, marker)
    decreases |s|
  {
    if s != [] {
      OccurrencesZeroIffAbsent(s[1..], marker);
    }
  }

  /** Skipping a stretch of positions where the marker does not start loses no occurrence. */
  lemma {:induction false} SkipNonMatches(s: string, marker: string, k: nat)
    requires marker != [] && k <= |s|
    requires forall j :: 0 <= j < k ==> !(marker <= s[j..])
    ensures Occurrences(s, marker) == Occurrences(s[k..], marker)
    decreases k
  {
    if k > 0 {
      var t := s[1..];
      assert s[0..] == s;
      assert Occurrences(s, marker) == Occurrences(t, marker);
      forall j | 0 <= j < k - 1
        ensures !(marker <= t[j..])
      {
        assert t[j..] == s[j + 1..];
      }
      SkipNonMatches(t, marker, k - 1);
      assert t[k - 1..] == s[k..];
    }
  }

  /** Right after a match of a border-free marker, the marker cannot start again before the
      match ends. */
  lemma NoMatchInsideMatch(s: string, marker: string)
    requires marker != [] && BorderFree(marker) && marker <= s
    ensures forall j :: 0 <= j < |marker| - 1 ==> !(marker <= s[1..][j..])
  {
    forall j | 0 <= j < |marker| - 1
      ensures !(marker <= s[1..][j..])
    {
      NoOverlapAfterMatch(s, marker, j + 1);
      assert s[1..][j..] == s[j + 1..];
    }
  }

  /** For a border-free marker, counting every starting position agrees with `s.count`. */
  lemma {:induction false} OccurrencesOfBorderFree(s: string, marker: string)
    requires marker != [] && BorderFree(marker)
    ensures Occurrences(s, marker) == Count(s, marker)
    decreases |s|
  {
    if marker <= s {
      var t := s[1..];
      NoMatchInsideMatch(s, marker);
      SkipNonMatches(t, marker, |marker| - 1);
      assert t[|marker| - 1..] == s[|marker|..];
      OccurrencesOfBorderFree(s[|marker|..], marker);
    } else if s != [] {
      OccurrencesOfBorderFree(s[1..], marker);
    }
  }

  /** The pieces of a split before a border-free marker, once the leading one is dropped:
      one per occurrence, each opening with the marker, together spelling `s` from the
      first occurrence on. */
  lemma SplitBeforeTail(s: string, marker: string)
    requires marker != [] && BorderFree(marker)
    ensures var pieces := SplitBefore(s, marker)[1..];
      && |pieces| == Occurrences(s, marker) == Count(s, marker)
      && (forall k :: 0 <= k < |pieces| ==> marker <= pieces[k])
      && Concat(pieces) == s[FirstMatch(s, marker)..]
      && (!Contains(s, marker) ==> pieces == [])
  {
    var parts := SplitBefore(s, marker);
    SplitBeforeCount(s, marker);
    SplitBeforeMarked(s, marker);
    OccurrencesOfBorderFree(s, marker);
    SplitBeforeConcat(s, marker);
    SplitBeforeHead(s, marker);
    OccurrencesZeroIffAbsent(s, marker);
    var i := FirstMatch(s, marker);
    assert s == s[..i] + s[i..];
    assert parts == [parts[0]] + parts[1..];
  }

  // ---------------------------------------------------------------- FlatMap

  /** One element more appends what `f` gives for it. */
  lemma FlatMapStep<A, B>(f: A -> seq<B>, xs: seq<A>, i: nat)
    requires i < |xs|
    ensures FlatMap(f, xs[..i + 1]) == FlatMap(f, xs[..i]) + f(xs[i])
  {
    assert xs[..i + 1][..i] == xs[..i];
  }

  /** Mapping `a + b` is mapping `a`, then `b`. */
  lemma {:induction false} FlatMapAppend<A, B>(f: A -> seq<B>, a: seq<A>, b: seq<A>)
    ensures FlatMap(f, a + b) == FlatMap(f, a) + FlatMap(f, b)
    decreases |b|
  {
    if b == [] {
      assert a + b == a;
    } else {
      var n := |b| - 1;
      FlatMapAppend(f, a, b[..n]);
      assert (a + b)[..|a + b| - 1] == a + b[..n];
      assert (a + b)[|a + b| - 1] == b[n];
      var x, y, last := FlatMap(f, a), FlatMap(f, b[..n]), f(b[n]);
      assert x + y + last == x + (y + last);
    }
  }
}
