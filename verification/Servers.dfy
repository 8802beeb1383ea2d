/** The client's choice of a server for a key: an array kept sorted, and a
    checksum of the key. */
module Servers {
  import opened Bytes

  /** What tells servers apart. Addresses and ports are compared as they stand
      in memory. */
  datatype Identity =
    | Tipc(port: nat)
    | Tcp(addr: nat, port: nat)
    | Udp(addr: nat, port: nat)
    | Sctp(addr: nat, port: nat)

  datatype Srv = Srv(fd: int, id: Identity)

  function Type(i: Identity): nat {
    match i
    case Tipc(_) => 1
    case Tcp(_, _) => 2
    case Udp(_, _) => 3
    case Sctp(_, _) => 4
  }

  /** compare_servers() */
  function Compare(a: Identity, b: Identity): int {
    if Type(a) != Type(b) then
      if Type(a) < Type(b) then -1 else 1
    else if a.Tipc? then
      if a.port < b.port then -1 else if a.port == b.port then 0 else 1
    else if a.addr < b.addr then -1
    else if a.addr == b.addr then
      if a.port < b.port then -1 else if a.port == b.port then 0 else 1
    else 1
  }

  /** The comparison is a strict total order on identities. */
  lemma CompareIsTotalOrder(a: Identity, b: Identity, c: Identity)
    ensures Compare(a, b) == 0 <==> a == b
    ensures Compare(a, b) == -Compare(b, a)
    ensures Compare(a, b) <= 0 && Compare(b, c) <= 0 ==> Compare(a, c) <= 0
  {
  }

  /** TIPC servers come first, then TCP, UDP and SCTP; among servers of one type
      the lower address, and for one address the lower port. */
  predicate Precedes(a: Identity, b: Identity) {
    match (a, b)
    case (Tipc(p), Tipc(q)) => p < q
    case (Tcp(x, p), Tcp(y, q)) => x < y || (x == y && p < q)
    case (Udp(x, p), Udp(y, q)) => x < y || (x == y && p < q)
    case (Sctp(x, p), Sctp(y, q)) => x < y || (x == y && p < q)
    case (Tipc(_), _) => true
    case (Tcp(_, _), _) => !b.Tipc?
    case (Udp(_, _), _) => b.Sctp?
    case (Sctp(_, _), _) => false
  }

  lemma CompareIsPrecedence(a: Identity, b: Identity)
    ensures Compare(a, b) < 0 <==> Precedes(a, b)
    ensures Compare(a, b) > 0 <==> Precedes(b, a)
  {
    match a {
      case Tipc(_) =>
      case Tcp(_, _) =>
      case Udp(_, _) =>
      case Sctp(_, _) =>
    }
  }

  function Ids(s: seq<Srv>): (r: seq<Identity>)
    ensures |r| == |s| && forall i :: 0 <= i < |s| ==> r[i] == s[i].id
  {
    seq(|s|, i requires 0 <= i < |s| => s[i].id)
  }

  predicate Sorted(ids: seq<Identity>) {
    forall i, j :: 0 <= i < j < |ids| ==> Compare(ids[i], ids[j]) <= 0
  }

  /** However qsort() works, what it leaves is determined by what is in it. */
  lemma {:induction false} SortedIsUnique(a: seq<Identity>, b: seq<Identity>)
    requires Sorted(a) && Sorted(b) && multiset(a) == multiset(b)
    ensures a == b
  {
    hide Compare;
    if a == [] {
      assert |multiset(b)| == 0;
    } else {
      assert |multiset(a)| == |multiset(b)|;
      FirstIsLeast(a, b);
      FirstIsLeast(b, a);
      CompareIsTotalOrder(a[0], b[0], b[0]);
      RestOf(a);
      RestOf(b);
      SortedIsUnique(a[1..], b[1..]);
    }
  }

  lemma RestOf(a: seq<Identity>)
    requires a != []
    ensures a == [a[0]] + a[1..] && multiset(a[1..]) == multiset(a) - multiset{a[0]}
  {
    assert a == [a[0]] + a[1..];
  }

  lemma FirstIsLeast(a: seq<Identity>, b: seq<Identity>)
    requires Sorted(a) && a != [] && b != [] && multiset(a) == multiset(b)
    ensures Compare(a[0], b[0]) <= 0
  {
    assert b[0] in multiset(b);
    assert b[0] in multiset(a);
    var i :| 0 <= i < |a| && a[i] == b[0];
    CompareIsTotalOrder(a[0], a[0], a[0]);
  }

  // ---------- the array ----------

  /** The place of x in a sorted array. */
  method FindPlace(s: seq<Srv>, x: Srv) returns (k: nat)
    requires Sorted(Ids(s))
    ensures k <= |s|
    ensures forall i :: 0 <= i < k ==> Compare(s[i].id, x.id) <= 0
    ensures forall i :: k <= i < |s| ==> Compare(x.id, s[i].id) <= 0
  {
    k := 0;
    while k < |s| && Compare(s[k].id, x.id) <= 0
      invariant k <= |s|
      invariant forall i :: 0 <= i < k ==> Compare(s[i].id, x.id) <= 0
    {
      k := k + 1;
    }
    forall i | k <= i < |s| ensures Compare(x.id, s[i].id) <= 0 {
      CompareIsTotalOrder(x.id, s[k].id, s[i].id);
      CompareIsTotalOrder(s[k].id, s[k].id, s[i].id);
      assert Ids(s)[k] == s[k].id && Ids(s)[i] == s[i].id;
    }
  }

  method Insert(s: seq<Srv>, x: Srv) returns (r: seq<Srv>)
    requires Sorted(Ids(s))
    ensures Sorted(Ids(r)) && multiset(Ids(r)) == multiset(Ids(s)) + multiset{x.id}
    ensures multiset(r) == multiset(s) + multiset{x}
  {
    var k := FindPlace(s, x);
    InsertKeepsSorted(s, k, x);
    assert s == s[..k] + s[k..];
    r := s[..k] + [x] + s[k..];
  }

  /** qsort() with compare_servers(). */
  method Qsort(s: seq<Srv>) returns (r: seq<Srv>)
    ensures Sorted(Ids(r)) && multiset(Ids(r)) == multiset(Ids(s))
    ensures multiset(r) == multiset(s)
  {
    hide Sorted;
    r := [];
    EmptyIsSorted();
    for n := 0 to |s|
      invariant Sorted(Ids(r))
      invariant multiset(Ids(r)) == multiset(Ids(s[..n])) && multiset(r) == multiset(s[..n])
    {
      r := Insert(r, s[n]);
      assert s[..n + 1] == s[..n] + [s[n]] && Ids(s[..n + 1]) == Ids(s[..n]) + [s[n].id];
    }
    assert s[..|s|] == s;
  }

  lemma EmptyIsSorted()
    ensures Ids([]) == [] && Sorted([])
  {
  }

  lemma InsertKeepsSorted(r: seq<Srv>, k: nat, x: Srv)
    requires k <= |r| && Sorted(Ids(r))
    requires forall i :: 0 <= i < k ==> Compare(r[i].id, x.id) <= 0
    requires forall i :: k <= i < |r| ==> Compare(x.id, r[i].id) <= 0
    ensures var t := r[..k] + [x] + r[k..];
      Sorted(Ids(t)) && multiset(Ids(t)) == multiset(Ids(r)) + multiset{x.id}
  {
    hide Compare;
    var t, ids := r[..k] + [x] + r[k..], Ids(r);
    assert Ids(t) == ids[..k] + [x.id] + ids[k..];
    assert ids == ids[..k] + ids[k..];
    forall i, j | 0 <= i < j < |t| ensures Compare(Ids(t)[i], Ids(t)[j]) <= 0 {
      if i != k && j != k {
        assert Compare(ids[if i < k then i else i - 1], ids[if j < k then j else j - 1]) <= 0;
      }
    }
  }

  /** A connection to some servers. */
  class Conn {
    var servers: seq<Srv>
    /** The servers added with success, in the order of the calls. */
    ghost var added: seq<Identity>

    ghost predicate Valid()
      reads this
    {
      Holds(servers, added)
    }

    constructor ()
      ensures Valid() && servers == [] && added == []
    {
      servers, added := [], [];
    }

    /** nmdb_add_tcp_server() and the like: connected tells whether the
        connection could be set up. */
    method Add(srv: Srv, connected: bool) returns (ok: bool)
      requires Valid()
      modifies this
      ensures Valid() && ok == connected
      ensures ok ==> added == old(added) + [srv.id]
      ensures ok ==> multiset(servers) == multiset(old(servers)) + multiset{srv}
      ensures !ok ==> servers == old(servers) && added == old(added)
    {
      servers := servers + [srv];
      if !connected {
        servers := servers[..|servers| - 1];
        return false;
      }
      ghost var grown := servers;
      assert Ids(grown) == Ids(old(servers)) + [srv.id];
      servers := Qsort(servers);
      added := added + [srv.id];
      ok := true;
    }

    /** select_srv(): none without servers, else the one whose index is the
        remainder of the checksum. */
    method Select(key: bytes) returns (r: Option<Srv>)
      ensures r == Chosen(servers, key)
      ensures r.Some? <==> servers != []
      ensures |key| <= 65536 && servers != [] ==>
        r.value == servers[(0xFFFF_FFFF - Folded(KeySum(key))) % |servers|]
    {
      if |servers| == 0 {
        return None;
      }
      hide ChecksumOf, KeySum, Folded;
      var n := Checksum(key);
      r := Some(servers[n % |servers|]);
      if |key| <= 65536 {
        ChecksumIsExact(key);
      }
    }
  }

  ghost predicate Holds(servers: seq<Srv>, added: seq<Identity>) {
    Sorted(Ids(servers)) && multiset(Ids(servers)) == multiset(added)
  }

  function Chosen(servers: seq<Srv>, key: bytes): Option<Srv> {
    if servers == [] then None else Some(servers[ChecksumOf(key) % |servers|])
  }

  /** Clients that added the same servers, in whatever order, keep the same array
      and choose the same server for every key. */
  lemma ChoiceIgnoresAddOrder(
    s: seq<Srv>, added: seq<Identity>, s': seq<Srv>, added': seq<Identity>, key: bytes)
    requires Holds(s, added) && Holds(s', added') && multiset(added) == multiset(added')
    ensures Ids(s) == Ids(s')
    ensures match Chosen(s, key)
      case None => Chosen(s', key) == None
      case Some(srv) => Chosen(s', key).Some? && Chosen(s', key).value.id == srv.id
  {
    SortedIsUnique(Ids(s), Ids(s'));
    if s != [] {
      var n := ChecksumOf(key) % |s|;
      assert Ids(s)[n] == s[n].id && Ids(s')[n] == s'[n].id;
    }
  }

  // ---------- the checksum ----------

  /** The 16-bit number at key[i], on a little-endian host. */
  function Word(key: bytes, i: nat): (w: nat)
    requires i + 1 < |key|
    ensures w <= 0xFFFF
  {
    key[i] + (key[i + 1] as int) * 0x100
  }

  /** The first n words. The walk advances one byte for each word it takes. */
  function Words(key: bytes, n: nat): (sum: nat)
    requires 2 * n <= |key|
    ensures sum <= n * 0xFFFF
  {
    if n == 0 then 0 else Words(key, n - 1) + Word(key, n - 1)
  }

  function ByteSum(b: bytes): (sum: nat)
    ensures sum <= |b| * 0xFF
  {
    if b == [] then 0 else ByteSum(b[..|b| - 1]) + b[|b| - 1]
  }

  /** What the walk adds up: the words overlap, so that each byte of the first
      half counts once as a low and once as a high byte, except that the first
      is never a high one, and the one in the middle of an even key never a low
      one. */
  function KeySum(key: bytes): nat {
    if key == [] then 0
    else
      key[0] + 257 * ByteSum(key[1..(|key| + 1) / 2]) + if |key| % 2 == 0 then 256 * key[|key| / 2] as int else 0
  }

  /** The bytes up to the middle, each with its part in the words so far. */
  lemma {:induction false} WordsOverlap(key: bytes, n: nat)
    requires 0 < n && 2 * n <= |key|
    ensures Words(key, n) == key[0] + 257 * ByteSum(key[1..n]) + 256 * key[n] as int
  {
    if n > 1 {
      WordsOverlap(key, n - 1);
      OneMore(key, n - 1);
    } else {
      assert Words(key, 0) == 0;
      assert key[1..1] == [];
    }
  }

  lemma OneMore(key: bytes, n: nat)
    requires 0 < n < |key|
    ensures ByteSum(key[1..n + 1]) == ByteSum(key[1..n]) + key[n]
  {
    assert key[1..n + 1][..n - 1] == key[1..n];
  }

  /** The walk: half as many words as the key has bytes, and for an odd key the
      byte where the walk ends. */
  lemma WalkIsKeySum(key: bytes)
    ensures Words(key, |key| / 2) + (if |key| % 2 == 1 then key[|key| / 2] as int else 0) == KeySum(key)
  {
    var m := |key| / 2;
    if m == 0 {
      assert Words(key, 0) == 0;
      assert key != [] ==> key[1..1] == [];
    } else {
      hide ByteSum, Words;
      WordsOverlap(key, m);
      if |key| % 2 == 1 {
        assert (|key| + 1) / 2 == m + 1;
        OneMore(key, m);
      } else {
        assert (|key| + 1) / 2 == m;
      }
    }
  }

  /** The sum with its carries folded in: the representative of its class modulo
      0xFFFF that is zero only for zero. */
  function Folded(sum: nat): (r: nat)
    ensures r <= 0xFFFF && (r == 0 <==> sum == 0)
    ensures r % 0xFFFF == sum % 0xFFFF
  {
    if sum == 0 then 0 else (sum - 1) % 0xFFFF + 1
  }

  function ChecksumOf(key: bytes): (r: nat)
    ensures r < TWO_32
  {
    TWO_32 - 1 - Folded(KeySum(key) % TWO_32)
  }

  /** For keys within the size limit the 32-bit sum never wraps. */
  lemma SumFits(key: bytes)
    requires |key| <= 65536
    ensures KeySum(key) < TWO_32
  {
  }

  /** ... so the checksum is the complement of the folded sum itself. */
  lemma ChecksumIsExact(key: bytes)
    requires |key| <= 65536
    ensures ChecksumOf(key) == 0xFFFF_FFFF - Folded(KeySum(key))
  {
    hide KeySum, Folded;
    SumFits(key);
  }

  /** One round of the end-around carry keeps the folded sum and shrinks it. */
  lemma CarryKeepsFolded(sum: nat)
    requires sum >= 0x1_0000
    ensures var next := sum % 0x1_0000 + sum / 0x1_0000;
      next < sum && Folded(next) == Folded(sum)
  {
    var q := sum / 0x1_0000;
    var next := sum % 0x1_0000 + q;
    assert sum == next + q * 0xFFFF;
    assert next > 0;
    ModSteps(next - 1, q);
  }

  lemma {:induction false} ModSteps(x: nat, q: nat)
    ensures (x + q * 0xFFFF) % 0xFFFF == x % 0xFFFF
  {
    if q > 0 {
      ModSteps(x, q - 1);
    }
  }

  /** checksum(): the complement of a number of 16 bits that is congruent to the
      sum modulo 0xFFFF, and zero only for a zero sum. */
  method Checksum(key: bytes) returns (r: nat)
    ensures r == ChecksumOf(key)
    ensures 0 <= 0xFFFF_FFFF - r <= 0xFFFF
    ensures |key| <= 65536 ==>
      && (0xFFFF_FFFF - r) % 0xFFFF == KeySum(key) % 0xFFFF
      && (r == 0xFFFF_FFFF <==> KeySum(key) == 0)
  {
    hide KeySum, Folded;
    var sum := SumWords(key);
    sum := FoldCarries(sum);
    r := TWO_32 - 1 - sum;
    if |key| <= 65536 {
      ChecksumIsExact(key);
    }
  }

  lemma WrapOnce(a: nat, b: nat)
    ensures (a % TWO_32 + b) % TWO_32 == (a + b) % TWO_32
  {
  }

  method SumWords(key: bytes) returns (sum: nat)
    ensures sum == KeySum(key) % TWO_32
  {
    hide Word, KeySum;
    sum := 0;
    var at, size := 0, |key|;
    while size > 1
      invariant 2 * at + size == |key| && size >= 0
      invariant sum == Words(key, at) % TWO_32
      decreases size
    {
      WrapOnce(Words(key, at), Word(key, at));
      sum := (sum + Word(key, at)) % TWO_32;
      at := at + 1;
      size := size - 2;
    }
    if size > 0 {
      WrapOnce(Words(key, at), key[at]);
      sum := (sum + key[at]) % TWO_32;
    }
    WalkIsKeySum(key);
  }

  method FoldCarries(whole: nat) returns (sum: nat)
    ensures sum == Folded(whole)
  {
    sum := whole;
    while sum / 0x1_0000 > 0
      invariant Folded(sum) == Folded(whole)
      decreases sum
    {
      CarryKeepsFolded(sum);
      sum := sum % 0x1_0000 + sum / 0x1_0000;
    }
  }

  /** The second half of a key takes no part in the choice of its server. */
  lemma ChoiceIgnoresSecondHalf(servers: seq<Srv>, a: bytes, b: bytes)
    requires |a| == |b| && a != []
    requires forall i :: 0 <= i <= |a| / 2 && i < |a| ==> a[i] == b[i]
    ensures Chosen(servers, a) == Chosen(servers, b)
  {
    var half := (|a| + 1) / 2;
    assert a[1..half] == b[1..half];
  }
}
