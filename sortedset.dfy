/** A Redis sorted set held the way Redis orders it: a sequence of
    (member, score) entries in ascending score order, ties broken by the
    byte order of the member, each member present once. Scores are integers
    here (Redis uses doubles). */
module SortedSet {
  import opened Text
  import opened Common

  datatype ZEntry = ZEntry(member: string, score: int)

  /** Redis's ascending order of sorted-set entries. */
  predicate Precedes(a: ZEntry, b: ZEntry) {
    a.score < b.score || (a.score == b.score && LexLess(a.member, b.member))
  }

  predicate Sorted(s: seq<ZEntry>) {
    forall i, j :: 0 <= i < j < |s| ==> Precedes(s[i], s[j])
  }

  predicate DistinctMembers(s: seq<ZEntry>) {
    forall i, j :: 0 <= i < j < |s| ==> s[i].member != s[j].member
  }

  predicate Valid(s: seq<ZEntry>) {
    Sorted(s) && DistinctMembers(s)
  }

  function Members(s: seq<ZEntry>): set<string> {
    set e | e in s :: e.member
  }

  lemma PrecedesTransitive(a: ZEntry, b: ZEntry, c: ZEntry)
    requires Precedes(a, b) && Precedes(b, c)
    ensures Precedes(a, c)
  {
    if a.score == b.score == c.score {
      LexLessTransitive(a.member, b.member, c.member);
    }
  }

  lemma PrecedesTotal(a: ZEntry, b: ZEntry)
    requires a.member != b.member
    ensures Precedes(a, b) || Precedes(b, a)
  {
    LexLessTotal(a.member, b.member);
  }

  /** The score of `member`, if it is in the set. */
  function ScoreOf(s: seq<ZEntry>, member: string): (r: Option<int>)
    ensures r.Some? <==> member in Members(s)
    ensures r.Some? ==> ZEntry(member, r.value) in s
  {
    if s == [] then None
    else if s[0].member == member then Some(s[0].score)
    else ScoreOf(s[1..], member)
  }

  /** The first entry of a valid set comes before, and differs in member
      from, every later entry. */
  lemma HeadFirst(s: seq<ZEntry>)
    requires Valid(s) && s != []
    ensures forall e :: e in s[1..] ==> Precedes(s[0], e) && s[0].member != e.member
  {
    forall e | e in s[1..] ensures Precedes(s[0], e) && s[0].member != e.member {
      var j :| 0 <= j < |s[1..]| && s[1..][j] == e;
      assert s[j + 1] == e;
    }
  }

  /** Putting an entry that comes first in front of a valid set keeps it valid. */
  lemma ConsValid(x: ZEntry, rest: seq<ZEntry>)
    requires Valid(rest)
    requires forall e :: e in rest ==> Precedes(x, e) && x.member != e.member
    ensures Valid([x] + rest)
  {
    var s := [x] + rest;
    forall i, j | 0 <= i < j < |s| ensures Precedes(s[i], s[j]) && s[i].member != s[j].member {
      if i == 0 {
        assert s[j] == rest[j - 1];
        assert s[j] in rest;
      } else {
        assert s[i] == rest[i - 1] && s[j] == rest[j - 1];
      }
    }
  }

  /** The set without `member`. */
  function Remove(s: seq<ZEntry>, member: string): (r: seq<ZEntry>)
    requires Valid(s)
    ensures Valid(r)
    ensures forall e :: e in r <==> e in s && e.member != member
    ensures Members(r) == Members(s) - {member}
  {
    if s == [] then []
    else
      HeadFirst(s);
      assert s == [s[0]] + s[1..];
      if s[0].member == member then s[1..]
      else
        var rest := Remove(s[1..], member);
        ConsValid(s[0], rest);
        [s[0]] + rest
  }

  /** `e` inserted at its place in the order. */
  function Insert(s: seq<ZEntry>, e: ZEntry): (r: seq<ZEntry>)
    requires Valid(s) && e.member !in Members(s)
    ensures Valid(r)
    ensures forall x :: x in r <==> x in s || x == e
    ensures Members(r) == Members(s) + {e.member}
    ensures |r| == |s| + 1
  {
    if s == [] then [e]
    else
      HeadFirst(s);
      assert s == [s[0]] + s[1..];
      if Precedes(e, s[0]) then
        forall x | x in s ensures Precedes(e, x) && e.member != x.member {
          if x != s[0] {
            PrecedesTransitive(e, s[0], x);
          }
        }
        ConsValid(e, s);
        [e] + s
      else
        PrecedesTotal(e, s[0]);
        var rest := Insert(s[1..], e);
        ConsValid(s[0], rest);
        [s[0]] + rest
  }

  /** ZADD / ZINCRBY: give `member` the score `score`, adding it if absent. */
  function Upsert(s: seq<ZEntry>, member: string, score: int): (r: seq<ZEntry>)
    requires Valid(s)
    ensures Valid(r)
    ensures Members(r) == Members(s) + {member}
    ensures ScoreOf(r, member) == Some(score)
    ensures forall m :: m != member ==> ScoreOf(r, m) == ScoreOf(s, m)
  {
    var removed := Remove(s, member);
    var r := Insert(removed, ZEntry(member, score));
    assert ZEntry(member, score) in r;
    UniqueScore(r, member, score);
    forall m | m != member ensures ScoreOf(r, m) == ScoreOf(s, m) {
      if ScoreOf(s, m).Some? {
        UniqueScore(r, m, ScoreOf(s, m).value);
      }
    }
    r
  }

  /** In a set with distinct members, the entry of a member fixes its score. */
  lemma UniqueScore(s: seq<ZEntry>, member: string, score: int)
    requires DistinctMembers(s) && ZEntry(member, score) in s
    ensures ScoreOf(s, member) == Some(score)
  {
    var i :| 0 <= i < |s| && s[i] == ZEntry(member, score);
    var k := ScoreOfIndex(s, member);
    assert k == i;
  }

  /** Where ScoreOf found its answer. */
  lemma {:induction false} ScoreOfIndex(s: seq<ZEntry>, member: string) returns (k: nat)
    requires member in Members(s)
    ensures k < |s| && s[k].member == member && ScoreOf(s, member) == Some(s[k].score)
  {
    if s[0].member == member {
      k := 0;
    } else {
      var e :| e in s && e.member == member;
      assert e in s[1..];
      var j := ScoreOfIndex(s[1..], member);
      k := j + 1;
    }
  }

  function Reverse<T>(s: seq<T>): (r: seq<T>)
    ensures |r| == |s|
    ensures forall i :: 0 <= i < |s| ==> r[i] == s[|s| - 1 - i]
  {
    if s == [] then [] else Reverse(s[1..]) + [s[0]]
  }

  /** Redis's normalisation of a [start, stop] index range over `n` elements
      (negative indexes count from the end; out-of-range ends are clipped):
      the half-open slice [lo, hi) to return. */
  function RangeBounds(n: nat, start: int, stop: int): (r: (nat, nat))
    ensures r.0 <= r.1 <= n
  {
    var s := if start < 0 then n + start else start;
    var e := if stop < 0 then n + stop else stop;
    var s := if s < 0 then 0 else s;
    if s > e || s >= n then (0, 0)
    else (s, if e >= n then n else e + 1)
  }

  /** ZREVRANGE: the members from rank `start` to rank `stop`, highest score first. */
  function RevRange(s: seq<ZEntry>, start: int, stop: int): (r: seq<string>)
    requires Valid(s)
    ensures forall m :: m in r ==> m in Members(s)
    ensures |r| <= |s|
  {
    var desc := Reverse(s);
    var (lo, hi) := RangeBounds(|s|, start, stop);
    var picked := desc[lo..hi];
    seq(|picked|, i requires 0 <= i < |picked| => picked[i].member)
  }

  /** The entries ZREVRANGE returns, highest first. */
  function RevEntries(s: seq<ZEntry>, start: int, stop: int): seq<ZEntry> {
    var (lo, hi) := RangeBounds(|s|, start, stop);
    Reverse(s)[lo..hi]
  }

  /** What ZREVRANGE returns is ordered by descending score (and descending
      member among equal scores), and names exactly the picked entries. */
  lemma RevRangeDescending(s: seq<ZEntry>, start: int, stop: int)
    requires Valid(s)
    ensures var es := RevEntries(s, start, stop);
      && |RevRange(s, start, stop)| == |es|
      && (forall i :: 0 <= i < |es| ==> RevRange(s, start, stop)[i] == es[i].member)
      && (forall i, j :: 0 <= i < j < |es| ==> Precedes(es[j], es[i]))
      && (forall i, j :: 0 <= i < j < |es| ==> es[i].score >= es[j].score)
  {
    var es := RevEntries(s, start, stop);
    var (lo, hi) := RangeBounds(|s|, start, stop);
    forall i, j | 0 <= i < j < |es| ensures Precedes(es[j], es[i]) {
      assert es[i] == s[|s| - 1 - (lo + i)];
      assert es[j] == s[|s| - 1 - (lo + j)];
    }
  }
}
