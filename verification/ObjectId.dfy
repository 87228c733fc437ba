/** The sixteen bytes that stand for a mapped reference in its object key, and how a key
    is recognised as one the proxy made. */
module ObjectId {
  import opened Prelude

  /** This process: its pid, its host and the byte order of its memory. */
  datatype Identity = Identity(pid: nat, hostid: nat, little: bool)

  ghost predicate Valid(me: Identity) {
    me.pid < 0x1_0000 && me.hostid < UINT32
  }

  const MAGIC: seq<byte> := [76, 82, 67, 65]   // "LRCA"
  const ID_LENGTH := 16

  // ---- integers in memory ----

  function Power256(n: nat): nat {
    if n == 0 then 1 else 256 * Power256(n - 1)
  }

  function LittleEndian(n: nat, x: nat): (s: seq<byte>)
    ensures |s| == n
  {
    if n == 0 then [] else [x % 256] + LittleEndian(n - 1, x / 256)
  }

  function FromLittleEndian(s: seq<byte>): (x: nat)
    ensures x < Power256(|s|)
  {
    if s == [] then 0 else s[0] + 256 * FromLittleEndian(s[1..])
  }

  function Reversed(s: seq<byte>): (r: seq<byte>)
    ensures |r| == |s| && forall k :: 0 <= k < |s| ==> r[k] == s[|s| - 1 - k]
  {
    seq(|s|, k requires 0 <= k < |s| => s[|s| - 1 - k])
  }

  function Store(me: Identity, n: nat, x: nat): (s: seq<byte>)
    ensures |s| == n
  {
    if me.little then LittleEndian(n, x) else Reversed(LittleEndian(n, x))
  }

  function Load(me: Identity, s: seq<byte>): nat {
    FromLittleEndian(if me.little then s else Reversed(s))
  }

  lemma {:induction false} LittleEndianRoundTrip(n: nat, x: nat)
    requires x < Power256(n)
    ensures FromLittleEndian(LittleEndian(n, x)) == x
  {
    if n > 0 {
      LittleEndianRoundTrip(n - 1, x / 256);
      assert LittleEndian(n, x)[1..] == LittleEndian(n - 1, x / 256);
    }
  }

  lemma {:induction false} FromLittleEndianRoundTrip(s: seq<byte>)
    ensures LittleEndian(|s|, FromLittleEndian(s)) == s
  {
    if s != [] {
      FromLittleEndianRoundTrip(s[1..]);
      var x := FromLittleEndian(s);
      assert x % 256 == s[0] && x / 256 == FromLittleEndian(s[1..]);
      assert s == [s[0]] + s[1..];
    }
  }

  lemma {:induction false} LoadStore(me: Identity, n: nat, x: nat)
    requires x < Power256(n)
    ensures Load(me, Store(me, n, x)) == x
  {
    LittleEndianRoundTrip(n, x);
    assert Reversed(Reversed(LittleEndian(n, x))) == LittleEndian(n, x);
  }

  lemma {:induction false} StoreLoad(me: Identity, s: seq<byte>)
    ensures Store(me, |s|, Load(me, s)) == s && Load(me, s) < Power256(|s|)
  {
    if me.little {
      FromLittleEndianRoundTrip(s);
    } else {
      FromLittleEndianRoundTrip(Reversed(s));
      assert Reversed(Reversed(s)) == s;
    }
  }

  lemma Powers()
    ensures Power256(2) == 0x1_0000 && Power256(4) == UINT32
  {
    assert Power256(3) == 256 * Power256(2);
  }

  // ---- the id ----

  /** 'O' or 'I'. */
  function Side(outFacing: bool): byte {
    if outFacing then 79 else 73
  }

  /** The struct: magic, version, side, pid, index, host. */
  function Layout(version: byte, side: byte, pid: seq<byte>, index: seq<byte>, host: seq<byte>): (id: seq<byte>)
    requires |pid| == 2 && |index| == 4 && |host| == 4
    ensures |id| == ID_LENGTH
  {
    MAGIC + [version, side] + pid + index + host
  }

  lemma LayoutFields(version: byte, side: byte, pid: seq<byte>, index: seq<byte>, host: seq<byte>)
    requires |pid| == 2 && |index| == 4 && |host| == 4
    ensures var id := Layout(version, side, pid, index, host);
      && id[..4] == MAGIC && id[4] == version && id[5] == side
      && id[6..8] == pid && id[8..12] == index && id[12..16] == host
  {
  }

  function Encode(me: Identity, version: byte, side: byte, index: nat): (id: seq<byte>)
    ensures |id| == ID_LENGTH
  {
    Layout(version, side, Store(me, 2, me.pid), Store(me, 4, index), Store(me, 4, me.hostid))
  }

  /** What `get_mapped_objectId` writes. */
  function MakeId(me: Identity, outFacing: bool, index: nat): (id: seq<byte>)
    ensures |id| == ID_LENGTH
  {
    Encode(me, 1, Side(outFacing), index)
  }

  /** The bytes of an id, one by one: "LRCA", 1, 'O' or 'I', and the numbers, low byte first
      on a little-endian machine and last on another. */
  lemma IdBytes(me: Identity, outFacing: bool, index: nat)
    requires Valid(me) && index < UINT32
    ensures var id := MakeId(me, outFacing, index);
      && (id[0], id[1], id[2], id[3]) == ('L' as int, 'R' as int, 'C' as int, 'A' as int)
      && id[4] == 1 && id[5] == (if outFacing then 'O' else 'I') as int
      && PairAt(me, id, 6) == me.pid && NumberAt(me, id, 8) == index && NumberAt(me, id, 12) == me.hostid
  {
    var id := MakeId(me, outFacing, index);
    LayoutFields(1, Side(outFacing), Store(me, 2, me.pid), Store(me, 4, index), Store(me, 4, me.hostid));
    assert id[0] == id[..4][0] && id[1] == id[..4][1] && id[2] == id[..4][2] && id[3] == id[..4][3];
    Powers();
    LoadStore(me, 2, me.pid);
    LoadPair(me, id, 6);
    NumberStored(me, id, 8, index);
    NumberStored(me, id, 12, me.hostid);
  }

  function NumberAt(me: Identity, id: seq<byte>, at: nat): nat
    requires at + 4 <= |id|
  {
    if me.little then Number(id[at], id[at + 1], id[at + 2], id[at + 3])
    else Number(id[at + 3], id[at + 2], id[at + 1], id[at])
  }

  function PairAt(me: Identity, id: seq<byte>, at: nat): nat
    requires at + 2 <= |id|
  {
    if me.little then Number(id[at], id[at + 1], 0, 0) else Number(id[at + 1], id[at], 0, 0)
  }

  function Number(a: byte, b: byte, c: byte, d: byte): nat {
    a + 0x100 * b + 0x1_0000 * c + 0x100_0000 * d
  }

  lemma NumberStored(me: Identity, id: seq<byte>, at: nat, x: nat)
    requires at + 4 <= |id| && id[at..at + 4] == Store(me, 4, x) && x < UINT32
    ensures NumberAt(me, id, at) == x
  {
    Powers();
    LoadStore(me, 4, x);
    LoadFour(me, id[at..at + 4]);
  }

  lemma LoadPair(me: Identity, id: seq<byte>, at: nat)
    requires at + 2 <= |id|
    ensures Load(me, id[at..at + 2]) == PairAt(me, id, at)
  {
    var s := id[at..at + 2];
    var t := if me.little then s else Reversed(s);
    assert FromLittleEndian(t[1..]) == t[1] + 256 * FromLittleEndian(t[1..][1..]);
  }

  lemma LoadFour(me: Identity, s: seq<byte>)
    requires |s| == 4
    ensures Load(me, s) == NumberAt(me, s, 0)
  {
    var t := if me.little then s else Reversed(s);
    assert FromLittleEndian(t[3..]) == t[3] + 256 * FromLittleEndian(t[3..][1..]);
    assert t[2..][1..] == t[3..] && t[1..][1..] == t[2..];
    assert FromLittleEndian(t[2..]) == t[2] + 256 * FromLittleEndian(t[3..]);
    assert FromLittleEndian(t[1..]) == t[1] + 256 * FromLittleEndian(t[2..]);
  }

  datatype Status = AlreadyMapped(index: nat) | ReverseMapped(index: nat) | NotMapped

  /** `already_mapped` on the key of a reference: the version byte is not looked at, and any
      side byte but the wanted one counts as the other side. */
  function Classify(me: Identity, key: seq<byte>, outFacing: bool): Status {
    if |key| < ID_LENGTH then NotMapped else
    var id := key[|key| - ID_LENGTH..];
    if id[..4] != MAGIC then NotMapped else
    if Load(me, id[6..8]) != me.pid || Load(me, id[12..16]) != me.hostid then NotMapped else
    if id[5] == Side(outFacing) then AlreadyMapped(Load(me, id[8..12])) else ReverseMapped(Load(me, id[8..12]))
  }

  ghost predicate EndsWith(key: seq<byte>, id: seq<byte>) {
    |id| <= |key| && key[|key| - |id|..] == id
  }

  /** An id behind any prefix is recognised, with its index. */
  lemma ClassifyMade(me: Identity, prefix: seq<byte>, version: byte, side: byte, index: nat, outFacing: bool)
    requires Valid(me) && index < UINT32
    ensures Classify(me, prefix + Encode(me, version, side, index), outFacing)
         == if side == Side(outFacing) then AlreadyMapped(index) else ReverseMapped(index)
  {
    var id := Encode(me, version, side, index);
    var key := prefix + id;
    assert key[|key| - ID_LENGTH..] == id;
    Powers();
    LoadStore(me, 2, me.pid);
    LoadStore(me, 4, index);
    LoadStore(me, 4, me.hostid);
    LayoutFields(version, side, Store(me, 2, me.pid), Store(me, 4, index), Store(me, 4, me.hostid));
  }

  /** What is recognised ends with an id of this process, of the side and index reported. */
  lemma MappedIsMade(me: Identity, key: seq<byte>, outFacing: bool)
    requires Valid(me) && !Classify(me, key, outFacing).NotMapped?
    ensures var index := Classify(me, key, outFacing).index; var side := key[|key| - 11];
      && index < UINT32
      && EndsWith(key, Encode(me, key[|key| - 12], side, index))
      && (Classify(me, key, outFacing).AlreadyMapped? <==> side == Side(outFacing))
  {
    var id := key[|key| - ID_LENGTH..];
    assert id[4] == key[|key| - 12] && id[5] == key[|key| - 11];
    Fields(me, id);
  }

  lemma Fields(me: Identity, id: seq<byte>)
    requires Valid(me) && |id| == ID_LENGTH && id[..4] == MAGIC
    requires Load(me, id[6..8]) == me.pid && Load(me, id[12..16]) == me.hostid
    ensures Load(me, id[8..12]) < UINT32 && id == Encode(me, id[4], id[5], Load(me, id[8..12]))
  {
    Powers();
    StoreLoad(me, id[6..8]);
    StoreLoad(me, id[8..12]);
    StoreLoad(me, id[12..16]);
    LayoutOf(id);
  }

  lemma LayoutOf(id: seq<byte>)
    requires |id| == ID_LENGTH && id[..4] == MAGIC
    ensures id == Layout(id[4], id[5], id[6..8], id[8..12], id[12..16])
  {
    assert id == id[..4] + [id[4], id[5]] + id[6..8] + id[8..12] + id[12..16];
  }

  /** A key is taken for a native one exactly when it ends with no id of this process. */
  lemma ClassifyExact(me: Identity, key: seq<byte>, outFacing: bool)
    requires Valid(me)
    ensures Classify(me, key, outFacing).NotMapped? <==>
      forall version, side, index: nat | index < UINT32 :: !EndsWith(key, Encode(me, version, side, index))
  {
    if Classify(me, key, outFacing).NotMapped? {
      forall version, side, index: nat | index < UINT32 && EndsWith(key, Encode(me, version, side, index))
        ensures false
      {
        MadeIsMapped(me, key, version, side, index, outFacing);
      }
    } else {
      MappedIsMade(me, key, outFacing);
    }
  }

  lemma MadeIsMapped(me: Identity, key: seq<byte>, version: byte, side: byte, index: nat, outFacing: bool)
    requires Valid(me) && index < UINT32 && EndsWith(key, Encode(me, version, side, index))
    ensures !Classify(me, key, outFacing).NotMapped?
  {
    var id := Encode(me, version, side, index);
    assert key == key[..|key| - |id|] + id;
    ClassifyMade(me, key[..|key| - |id|], version, side, index, outFacing);
  }

  /** Two ids are equal only for the same side and the same index. */
  lemma MakeIdInjective(me: Identity, out1: bool, index1: nat, out2: bool, index2: nat)
    requires Valid(me) && index1 < UINT32 && index2 < UINT32
    requires MakeId(me, out1, index1) == MakeId(me, out2, index2)
    ensures out1 == out2 && index1 == index2
  {
    ClassifyMade(me, [], 1, Side(out1), index1, true);
    ClassifyMade(me, [], 1, Side(out2), index2, true);
  }

  lemma IndexOf(me: Identity, outFacing: bool, index: nat)
    requires Valid(me) && index < UINT32
    ensures Load(me, MakeId(me, outFacing, index)[8..12]) == index
  {
    Powers();
    LoadStore(me, 4, index);
    LayoutFields(1, Side(outFacing), Store(me, 2, me.pid), Store(me, 4, index), Store(me, 4, me.hostid));
  }
}
