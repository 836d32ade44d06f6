/** Texts of any length in which no four bytes repeat within reach of a match. */
module Lz4NoMatch {
  import opened Bytes
  import opened Lz4Format
  import opened Lz4Match

  /** Byte `i` of such a text: every fourth byte is a mark, and it and the byte after it number the groups of four. */
  function TextByte(i: nat): byte {
    if i % 4 == 0 then 128 + i / 4 % 128 else if i % 4 == 1 then i / 512 % 128 else 0
  }

  function Groups(from: nat, n: nat): (text: seq<byte>)
    ensures |text| == n
  {
    seq<byte>(n, (i: nat) => TextByte(from + i))
  }

  function TextWithoutMatch(n: nat): (text: seq<byte>)
    ensures |text| == n
  {
    Groups(0, n)
  }

  /** Only the groups' first bytes are marks. */
  lemma MarkAt(i: nat)
    ensures TextByte(i) >= 128 <==> i % 4 == 0
  {
  }

  /** The group that starts at position `4 * b` says `b`, up to multiples of 16384. */
  lemma GroupBytes(b: nat)
    ensures TextByte(4 * b) == 128 + b % 128 && TextByte(4 * b + 1) == b / 128 % 128
  {
    assert 4 * b / 4 == b && (4 * b + 1) / 512 == b / 128;
  }

  lemma SameGroup(b: nat, c: nat)
    requires b < c && b % 128 == c % 128 && b / 128 % 128 == c / 128 % 128
    ensures b + 16384 <= c
  {
    var q, r := b / 128, c / 128;
    assert b == 128 * q + b % 128 && c == 128 * r + c % 128;
    assert q < r;
    assert q == 128 * (q / 128) + q % 128 && r == 128 * (r / 128) + r % 128;
  }

  predicate SameByte(m: nat, ip: nat, k: nat) {
    TextByte(m + k) == TextByte(ip + k)
  }

  /** The marks of four equal bytes are at the same place. */
  lemma SameMark(m: nat, ip: nat) returns (k: nat)
    requires SameByte(m, ip, 0) && SameByte(m, ip, 1) && SameByte(m, ip, 2) && SameByte(m, ip, 3)
    ensures k < 4 && (m + k) % 4 == 0 && (ip + k) % 4 == 0
  {
    k := (4 - m % 4) % 4;
    assert (m + k) % 4 == 0;
    MarkAt(m + k);
    MarkAt(ip + k);
    assert SameByte(m, ip, k);
  }

  /** Four equal bytes hold the number of the group where the mark is, or its first half and the second half of the
      number of the group before; so the groups are the same, or far apart. */
  lemma DifferentFour(m: nat, ip: nat)
    requires m < ip && SameByte(m, ip, 0) && SameByte(m, ip, 1) && SameByte(m, ip, 2) && SameByte(m, ip, 3)
    ensures m + MAX_DISTANCE < ip
  {
    hide TextByte;
    var k := SameMark(m, ip);
    var b, c := (m + k) / 4, (ip + k) / 4;
    assert SameByte(m, ip, k);
    if k < 3 {
      assert SameByte(m, ip, k + 1);
      SameNumber(m + k, ip + k, m + k + 1, ip + k + 1, b, c, b, c);
    } else {
      SameNumber(m + 3, ip + 3, m, ip, b, c, b - 1, c - 1);
    }
  }

  /** The same mark at `i` and `j`, the same byte after a mark at `i'` and `j'`, and one and the same step from the
      number of the group of the first to that of the second. */
  lemma SameNumber(i: nat, j: nat, i': nat, j': nat, b: nat, c: nat, b': nat, c': nat)
    requires i < j && i == 4 * b && j == 4 * c && i' == 4 * b' + 1 && j' == 4 * c' + 1 && b - b' == c - c'
    requires 0 <= b - b' <= 1
    requires TextByte(i) == TextByte(j) && TextByte(i') == TextByte(j')
    ensures i + 4 * 16384 <= j
  {
    hide TextByte;
    GroupBytes(b);
    GroupBytes(c);
    GroupBytes(b');
    GroupBytes(c');
    if b' < b {
      NumberBefore(b);
      NumberBefore(c);
    }
    SameGroup(b', c');
  }

  lemma NumberBefore(b: nat)
    requires 0 < b
    ensures (b - 1) % 128 == if b % 128 == 0 then 127 else b % 128 - 1
  {
  }

  lemma GroupsDiffer(from: nat, n: nat)
    ensures OnlyAt(Groups(from, n), {})
  {
    hide TextByte, Groups;
    forall ip: nat, m: nat | RealMatch(Groups(from, n), ip, m, MINMATCH)
      ensures false
    {
      SameGroupByte(from, n, ip, m, 0);
      SameGroupByte(from, n, ip, m, 1);
      SameGroupByte(from, n, ip, m, 2);
      SameGroupByte(from, n, ip, m, 3);
      DifferentFour(from + m, from + ip);
    }
  }

  lemma SameGroupByte(from: nat, n: nat, ip: nat, m: nat, k: nat)
    requires k < 4 && RealMatch(Groups(from, n), ip, m, MINMATCH)
    ensures SameByte(from + m, from + ip, k)
  {
    hide TextByte;
    SameAt(Groups(from, n), ip, m, k);
  }

  /** No match anywhere. */
  lemma NoMatch(n: nat)
    ensures Matchless(TextWithoutMatch(n))
  {
    hide Groups, RealMatch;
    GroupsDiffer(0, n);
  }

  // ---------- texts with a match where one is wanted ----------

  predicate IsMark(x: byte) {
    x >= 128
  }

  /** Byte `v` is never followed by a mark, and is not the last of four bytes without a mark. */
  ghost predicate Unused(text: seq<byte>, v: byte) {
    && !IsMark(v)
    && (forall i :: 0 < i < |text| && IsMark(text[i]) ==> text[i - 1] != v)
    && (forall i :: 3 <= i < |text| && text[i] == v ==>
          IsMark(text[i - 1]) || IsMark(text[i - 2]) || IsMark(text[i - 3]))
  }

  /** Position `p` is where a group starts. */
  predicate Boundary(text: seq<byte>, p: nat) {
    && p <= |text|
    && (forall j :: p - 3 <= j < p && 0 <= j ==> !IsMark(text[j]))
    && (p < |text| ==> IsMark(text[p]))
    && (forall j :: p < j < p + 3 && j < |text| ==> !IsMark(text[j]))
  }

  const ISLAND := 5

  /** Five equal bytes put in between. */
  function Insert(text: seq<byte>, p: nat, v: byte): (r: seq<byte>)
    requires p <= |text|
    ensures |r| == |text| + ISLAND
  {
    text[..p] + [v, v, v, v, v] + text[p..]
  }

  lemma InsertedBytes(text: seq<byte>, p: nat, v: byte, i: nat)
    requires p <= |text| && i < |text| + ISLAND
    ensures Insert(text, p, v)[i] == if i < p then text[i] else if i < p + ISLAND then v else text[i - ISLAND]
  {
  }

  /** The four bytes at `i`, before and after the insertion, when they are not torn. */
  function OldPlace(p: nat, i: nat): nat
    requires i < p || p + ISLAND <= i
  {
    if i < p then i else i - ISLAND
  }

  lemma SameAt(text: seq<byte>, ip: nat, m: nat, k: nat)
    requires RealMatch(text, ip, m, MINMATCH) && k < 4
    ensures text[ip + k] == text[m + k]
  {
    assert text[ip + k] == text[ip + k - (ip - m)];
  }

  /** Two windows away from the new bytes match only if they did before. */
  lemma BothOld(text: seq<byte>, p: nat, v: byte, ip: nat, m: nat)
    requires p <= |text| && RealMatch(Insert(text, p, v), ip, m, MINMATCH)
    requires (ip + 4 <= p || p + ISLAND <= ip) && (m + 4 <= p || p + ISLAND <= m)
    ensures RealMatch(text, OldPlace(p, ip), OldPlace(p, m), MINMATCH)
  {
    hide Insert;
    var d := OldPlace(p, ip) - OldPlace(p, m);
    forall k | OldPlace(p, ip) <= k < OldPlace(p, ip) + 4
      ensures text[k] == text[k - d]
    {
      var j := k - OldPlace(p, ip);
      SameAt(Insert(text, p, v), ip, m, j);
      InsertedBytes(text, p, v, ip + j);
      InsertedBytes(text, p, v, m + j);
    }
  }

  /** What the four bytes at `i` look like when some of them are new: they end with a new one and have no mark, or
      there is a new one before a mark. */
  lemma Torn(text: seq<byte>, p: nat, v: byte, i: nat)
    requires Boundary(text, p) && !IsMark(v) && p < i + 4 && i < p + ISLAND && i + 4 <= |text| + ISLAND
    ensures var t := Insert(text, p, v);
            if i <= p + 1 then
              t[i + 3] == v && forall k :: i <= k < i + 4 ==> !IsMark(t[k])
            else
              t[p + 4] == v && IsMark(t[p + 5]) && forall k :: i <= k < i + 4 && k != p + 5 ==> !IsMark(t[k])
  {
    hide Insert;
    var t := Insert(text, p, v);
    forall k | i <= k < i + 4 && k != p + 5
      ensures !IsMark(t[k])
    {
      InsertedBytes(text, p, v, k);
      if k < p {
        assert !IsMark(text[k]);
      } else if p + ISLAND < k {
        assert !IsMark(text[k - ISLAND]);
      }
    }
    InsertedBytes(text, p, v, i + 3);
    if i > p + 1 {
      InsertedBytes(text, p, v, p + 4);
      InsertedBytes(text, p, v, p + 5);
    }
  }

  /** New bytes are not found elsewhere. */
  lemma NotElsewhere(text: seq<byte>, p: nat, v: byte, i: nat, j: nat) returns (k: nat)
    requires Boundary(text, p) && Unused(text, v) && p < i + 4 && i < p + ISLAND && i + 4 <= |text| + ISLAND
    requires (j + 4 <= p || p + ISLAND <= j) && j + 4 <= |text| + ISLAND
    ensures k < 4 && p <= |text| && Insert(text, p, v)[i + k] != Insert(text, p, v)[j + k]
  {
    hide Insert, Boundary, Unused, IsMark;
    BoundaryFacts(text, p);
    var t, o := Insert(text, p, v), OldPlace(p, j);
    NotMarkFromUnused(text, v);
    Torn(text, p, v, i);
    if i <= p + 1 {
      k := MarkOrOther(text, v, o);
    } else {
      k := p + 5 - i;
      NeverBeforeMark(text, v, o + k);
      if IsMark(text[o + k]) {
        k := k - 1;
      }
    }
    InsertedBytes(text, p, v, j + k);
  }

  lemma BoundaryFacts(text: seq<byte>, p: nat)
    requires Boundary(text, p)
    ensures p <= |text|
  {
  }

  lemma NeverBeforeMark(text: seq<byte>, v: byte, i: nat)
    requires Unused(text, v) && 0 < i < |text|
    ensures IsMark(text[i]) ==> text[i - 1] != v
  {
  }

  /** Of four bytes the last is not `v`, or there is a mark before it. */
  lemma MarkOrOther(text: seq<byte>, v: byte, o: nat) returns (k: nat)
    requires Unused(text, v) && o + 4 <= |text|
    ensures k < 4 && if k == 3 then text[o + 3] != v else IsMark(text[o + k])
  {
    k := if text[o + 3] != v then 3 else if IsMark(text[o]) then 0 else if IsMark(text[o + 1]) then 1 else 2;
    assert text[o + 3] == v ==> IsMark(text[o + 3 - 1]) || IsMark(text[o + 3 - 2]) || IsMark(text[o + 3 - 3]);
  }

  /** Among themselves they match only one byte apart. */
  lemma BothTorn(text: seq<byte>, p: nat, v: byte, ip: nat, m: nat)
    requires Boundary(text, p) && !IsMark(v) && (0 < p ==> text[p - 1] != v)
    requires RealMatch(Insert(text, p, v), ip, m, MINMATCH) && p < m + 4 && ip < p + ISLAND
    ensures ip == p + 1
  {
    hide Insert;
    var t := Insert(text, p, v);
    Torn(text, p, v, ip);
    Torn(text, p, v, m);
    SameAt(t, ip, m, 0);
    SameAt(t, ip, m, 1);
    SameAt(t, ip, m, 2);
    SameAt(t, ip, m, 3);
    if m < p {
      InsertedBytes(text, p, v, p - 1);
      if ip <= p + 1 {
        InsertedBytes(text, p, v, p - 1 + (ip - m));
      }
    }
  }

  lemma Inserted(text: seq<byte>, p: nat, v: byte)
    requires p <= |text|
    ensures Agree(Insert(text, p, v), p, p + 1, 4)
  {
    hide Insert;
    forall k | p + 1 <= k < p + 5
      ensures Insert(text, p, v)[k] == Insert(text, p, v)[k - 1]
    {
      InsertedBytes(text, p, v, k);
      InsertedBytes(text, p, v, k - 1);
    }
  }

  lemma StillAgree(text: seq<byte>, p: nat, v: byte, a: nat)
    requires 0 < a && a + 4 <= p <= |text| && Agree(text, a - 1, a, 4)
    ensures Agree(Insert(text, p, v), a - 1, a, 4)
  {
  }

  lemma InsertOnce(text: seq<byte>, p: nat, v: byte, ip: nat, m: nat)
    requires Boundary(text, p) && Unused(text, v) && (0 < p ==> text[p - 1] != v)
    requires RealMatch(Insert(text, p, v), ip, m, MINMATCH)
    ensures || ip == p + 1
            || ((ip + 4 <= p || p + ISLAND <= ip) && exists m' :: RealMatch(text, OldPlace(p, ip), m', MINMATCH))
  {
    hide Insert, Boundary, Unused;
    BoundaryFacts(text, p);
    var t := Insert(text, p, v);
    NotMarkFromUnused(text, v);
    var oldIp, oldM := ip + 4 <= p || p + ISLAND <= ip, m + 4 <= p || p + ISLAND <= m;
    if oldIp && oldM {
      BothOld(text, p, v, ip, m);
    } else if oldIp {
      var k := NotElsewhere(text, p, v, m, ip);
      SameAt(t, ip, m, k);
    } else if oldM {
      var k := NotElsewhere(text, p, v, ip, m);
      SameAt(t, ip, m, k);
    } else {
      BothTorn(text, p, v, ip, m);
    }
  }

  /** The insertion moves the old matches, and adds one. */
  lemma InsertOnly(text: seq<byte>, p: nat, v: byte, at: set<nat>, at': set<nat>)
    requires Boundary(text, p) && Unused(text, v) && (0 < p ==> text[p - 1] != v) && OnlyAt(text, at)
    requires p + 1 in at' && forall x :: x in at ==> (if x < p then x else x + ISLAND) in at'
    ensures OnlyAt(Insert(text, p, v), at')
  {
    hide Insert, Boundary, Unused, RealMatch;
    BoundaryFacts(text, p);
    forall ip: nat, m: nat | RealMatch(Insert(text, p, v), ip, m, MINMATCH)
      ensures ip in at'
    {
      InsertOnce(text, p, v, ip, m);
      if ip != p + 1 {
        var m' :| RealMatch(text, OldPlace(p, ip), m', MINMATCH);
        RealPlace(text, OldPlace(p, ip), m');
        assert OldPlace(p, ip) in at;
      }
    }
  }

  lemma RealPlace(text: seq<byte>, ip: nat, m: int)
    requires RealMatch(text, ip, m, MINMATCH)
    ensures 0 <= m
  {
  }

  lemma NotMarkFromUnused(text: seq<byte>, v: byte)
    requires Unused(text, v)
    ensures !IsMark(v)
  {
  }

  // ---------- one and two matches ----------

  /** With the number of the first group such that position `a - 1` is where one starts. */
  function GroupsFor(n: nat, a: nat): (text: seq<byte>)
    ensures |text| == n
  {
    Groups(3 * a + 1, n)
  }

  lemma GroupsForOnly(n: nat, a: nat)
    ensures OnlyAt(GroupsFor(n, a), {})
  {
    hide Groups, RealMatch;
    GroupsDiffer(3 * a + 1, n);
  }

  lemma GroupsForAt(n: nat, a: nat, i: nat)
    requires i < n && 0 < a
    ensures IsMark(GroupsFor(n, a)[i]) <==> (i + 1 - a) % 4 == 0
    ensures !IsMark(GroupsFor(n, a)[i]) && (i - a) % 4 != 0 ==> GroupsFor(n, a)[i] == 0
  {
    hide TextByte;
    var j := 3 * a + 1 + i;
    assert GroupsFor(n, a)[i] == TextByte(j);
    MarkAt(j);
    ZeroAt(j);
    SameResidue(j, i, a);
  }

  lemma SameResidue(j: nat, i: nat, a: nat)
    requires j == 3 * a + 1 + i
    ensures j % 4 == (i + 1 - a) % 4 && (j % 4 == 1 <==> (i - a) % 4 == 0)
  {
    var q := j / 4;
    assert j == 4 * q + j % 4 && i + 1 - a == 4 * (q - a) + j % 4;
  }

  lemma ZeroAt(i: nat)
    ensures TextByte(i) < 128 && i % 4 != 1 ==> TextByte(i) == 0
  {
  }

  /** Where the marks are, and the zeros. */
  predicate Grouped(g: seq<byte>, a: nat) {
    && (forall i :: 0 <= i < |g| ==> (IsMark(g[i]) <==> (i + 1 - a) % 4 == 0))
    && (forall i :: 0 <= i < |g| && !IsMark(g[i]) && (i - a) % 4 != 0 ==> g[i] == 0)
  }

  lemma GroupsForGrouped(n: nat, a: nat)
    requires 0 < a
    ensures Grouped(GroupsFor(n, a), a)
  {
    hide GroupsFor, IsMark;
    forall i | 0 <= i < n
      ensures IsMark(GroupsFor(n, a)[i]) <==> (i + 1 - a) % 4 == 0
      ensures !IsMark(GroupsFor(n, a)[i]) && (i - a) % 4 != 0 ==> GroupsFor(n, a)[i] == 0
    {
      GroupsForAt(n, a, i);
    }
  }

  lemma GroupedFits(g: seq<byte>, a: nat, v: byte)
    requires 0 < a <= |g| + 1 && 0 < v < 128 && Grouped(g, a)
    ensures Boundary(g, a - 1) && Unused(g, v) && (1 < a ==> g[a - 2] != v)
  {
    GroupedBoundary(g, a);
    GroupedUnused(g, a, v);
    if 1 < a {
      assert (a - 2 + 1 - a) % 4 == 3 && (a - 2 - a) % 4 == 2;
    }
  }

  lemma GroupedBoundary(g: seq<byte>, a: nat)
    requires 0 < a <= |g| + 1 && Grouped(g, a)
    ensures Boundary(g, a - 1)
  {
    hide IsMark;
  }

  lemma GroupedUnused(g: seq<byte>, a: nat, v: byte)
    requires 0 < v < 128 && Grouped(g, a)
    ensures Unused(g, v)
  {
    forall i | 3 <= i < |g| && g[i] == v
      ensures IsMark(g[i - 1]) || IsMark(g[i - 2]) || IsMark(g[i - 3])
    {
      assert !IsMark(g[i]) && (i - a) % 4 == 0;
      assert (i - 1 + 1 - a) % 4 == 0;
    }
  }

  /** The only match is at `a`: four bytes, one byte back. */
  function OneMatch(n: nat, a: nat): (text: seq<byte>)
    requires 0 < a && a + 4 <= n
    ensures |text| == n
  {
    Insert(GroupsFor(n - ISLAND, a), a - 1, 1)
  }

  /** And another one at `b`. */
  function TwoMatches(n: nat, a: nat, b: nat): (text: seq<byte>)
    requires 0 < a && a + 8 <= b && b + 4 <= n && (b - a) % 4 == 1
    ensures |text| == n
  {
    Insert(OneMatch(n - ISLAND, a), b - 1, 2)
  }

  lemma OneMatchOnly(n: nat, a: nat)
    requires 0 < a && a + 4 <= n
    ensures OnlyAt(OneMatch(n, a), {a}) && Agree(OneMatch(n, a), a - 1, a, 4)
    ensures a + 6 < n ==> OneMatch(n, a)[a + 6] == 0
  {
    hide GroupsFor, Insert, Boundary, Unused, IsMark, RealMatch, Grouped;
    GroupsForOnly(n - ISLAND, a);
    GroupsForGrouped(n - ISLAND, a);
    GroupedFits(GroupsFor(n - ISLAND, a), a, 1);
    InsertOnly(GroupsFor(n - ISLAND, a), a - 1, 1, {}, {a});
    Inserted(GroupsFor(n - ISLAND, a), a - 1, 1);
    if a + 6 < n {
      InsertedBytes(GroupsFor(n - ISLAND, a), a - 1, 1, a + 6);
      GroupsForAt(n - ISLAND, a, a + 1);
    }
  }

  lemma OneMatchAt(n: nat, a: nat, i: nat)
    requires 0 < a && a + 4 <= n && i < n
    ensures var g := GroupsFor(n - ISLAND, a);
            OneMatch(n, a)[i] == if i < a - 1 then g[i] else if i < a + 4 then 1 else g[i - ISLAND]
  {
    hide GroupsFor, Insert;
    InsertedBytes(GroupsFor(n - ISLAND, a), a - 1, 1, i);
  }

  /** `t` is `g` with five bytes more. */
  predicate WithIsland(g: seq<byte>, t: seq<byte>, a: nat) {
    && |t| == |g| + ISLAND && 0 < a && a + 4 <= |t|
    && (forall i :: 0 <= i < a - 1 ==> t[i] == g[i])
    && (forall i :: a - 1 <= i < a + 4 ==> t[i] == 1)
    && (forall i :: a + 4 <= i < |t| ==> t[i] == g[i - ISLAND])
  }

  lemma OneMatchFits(n: nat, a: nat, b: nat)
    requires 0 < a && a + 8 <= b && b <= n + 1 && (b - a) % 4 == 1
    ensures Boundary(OneMatch(n, a), b - 1) && Unused(OneMatch(n, a), 2) && OneMatch(n, a)[b - 2] != 2
  {
    hide GroupsFor, OneMatch, IsMark, Grouped;
    var g, t := GroupsFor(n - ISLAND, a), OneMatch(n, a);
    forall i | 0 <= i < n
      ensures i < a - 1 ==> t[i] == g[i]
      ensures a - 1 <= i < a + 4 ==> t[i] == 1
      ensures a + 4 <= i ==> t[i] == g[i - ISLAND]
    {
      OneMatchAt(n, a, i);
    }
    GroupsForGrouped(n - ISLAND, a);
    IslandBoundary(g, t, a, b);
    IslandUnused(g, t, a);
  }

  lemma IslandBoundary(g: seq<byte>, t: seq<byte>, a: nat, b: nat)
    requires 0 < a && a + 8 <= b <= |t| + 1 && (b - a) % 4 == 1 && WithIsland(g, t, a) && Grouped(g, a)
    ensures Boundary(t, b - 1) && t[b - 2] != 2
  {
    hide IsMark;
    hide Grouped;
    forall j | b - 4 <= j < b + 2 && j < |t|
      ensures IsMark(t[j]) <==> j == b - 1
    {
      assert t[j] == g[j - ISLAND];
      NearBoundary(g, a, b, j);
    }
    NearBoundary(g, a, b, b - 2);
    assert t[b - 2] == g[b - 7];
  }

  lemma NearBoundary(g: seq<byte>, a: nat, b: nat, j: nat)
    requires (b - a) % 4 == 1 && b - 4 <= j < b + 2 && ISLAND <= j < |g| + ISLAND && Grouped(g, a)
    ensures IsMark(g[j - ISLAND]) <==> j == b - 1
    ensures j == b - 2 ==> g[j - ISLAND] == 0
  {
    hide IsMark;
    NearResidue(a, b, j);
  }

  lemma NearResidue(a: nat, b: nat, j: nat)
    requires (b - a) % 4 == 1 && b - 4 <= j < b + 2
    ensures (j - ISLAND + 1 - a) % 4 == 0 <==> j == b - 1
    ensures j == b - 2 ==> (j - ISLAND - a) % 4 == 2
  {
    assert j - ISLAND + 1 - a == (b - a) + (j - b) - 4;
  }

  lemma IslandUnused(g: seq<byte>, t: seq<byte>, a: nat)
    requires 0 < a && a + 4 <= |t| && WithIsland(g, t, a) && Grouped(g, a)
    ensures Unused(t, 2)
  {
    forall i | 0 < i < |t| && IsMark(t[i])
      ensures t[i - 1] != 2
    {
      if i != a + 4 {
        var j := if i < a - 1 then i else i - ISLAND;
        assert t[i] == g[j] && t[i - 1] == g[j - 1] && (j - 1 - a) % 4 == 2;
        assert (j - 1 + 1 - a) % 4 != 0;
      }
    }
    forall i | 3 <= i < |t| && t[i] == 2
      ensures IsMark(t[i - 1]) || IsMark(t[i - 2]) || IsMark(t[i - 3])
    {
      var j := if i < a - 1 then i else i - ISLAND;
      assert i < a - 1 || a + 4 <= i;
      assert t[i] == g[j] && (j - a) % 4 == 0;
      assert t[i - 1] == if i == a + 4 then 1 else g[j - 1];
    }
  }

  lemma TwoMatchesOnly(n: nat, a: nat, b: nat)
    requires 0 < a && a + 8 <= b && b + 4 <= n && (b - a) % 4 == 1
    ensures var t := TwoMatches(n, a, b);
            && OnlyAt(t, {a, b}) && Agree(t, a - 1, a, 4) && Agree(t, b - 1, b, 4) && (b + 6 < n ==> t[b + 6] == 0)
  {
    hide GroupsFor, OneMatch, Insert, Boundary, Unused, IsMark, RealMatch;
    var one := OneMatch(n - ISLAND, a);
    OneMatchOnly(n - ISLAND, a);
    OneMatchFits(n - ISLAND, a, b);
    InsertOnly(one, b - 1, 2, {a}, {a, b});
    Inserted(one, b - 1, 2);
    StillAgree(one, b - 1, 2, a);
    if b + 6 < n {
      InsertedBytes(one, b - 1, 2, b + 6);
      OneMatchAt(n - ISLAND, a, b + 1);
      GroupsForAt(n - 2 * ISLAND, a, b - 4);
      assert (b - 4 - a) % 4 == 1 && (b - 4 + 1 - a) % 4 == 2;
    }
  }
}
