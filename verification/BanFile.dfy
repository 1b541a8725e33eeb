/**
 * The ban file: `saveBans` writes the entry count as a Java `int`, then for
 * every entry the UUID's most and least significant bits and the ban start
 * time as Java `long`s; `loadBans` reads the same layout back, and on any
 * read failure falls back to an empty ban list.
 */
module BanFile {
  import opened Wrappers
  import opened JavaInt
  import opened BigEndian
  import opened BanStore

  // The header is the 4-byte entry count; each entry takes 3 * 8 = 24 bytes.

  /** The `IOException` a read can raise here: the file ended too early. */
  datatype LoadError = EndOfFile

  /** One entry: `writeLong` of the UUID's high bits, its low bits, and the ban start. */
  function WriteRecord(id: Uuid, bannedAt: Int64): (bs: seq<Byte>)
    ensures |bs| == 24
  {
    WriteLong(id.mostSigBits) + WriteLong(id.leastSigBits) + WriteLong(bannedAt)
  }

  function WriteRecords(bans: BanList, order: seq<Uuid>): (bs: seq<Byte>)
    requires forall i :: 0 <= i < |order| ==> order[i] in bans
    ensures |bs| == 24 * |order|
    decreases |order|
  {
    if |order| == 0 then [] else WriteRecord(order[0], bans[order[0]]) + WriteRecords(bans, order[1..])
  }

  /**
   * `saveBans`: the bytes written for `bans` when the map's entry set is
   * iterated in `order`. `HashMap.size()` is an `int`, so the map holds at
   * most `Integer.MAX_VALUE` entries.
   */
  function Encode(bans: BanList, order: seq<Uuid>): (bs: seq<Byte>)
    requires IsEnumeration(order, bans)
    requires |bans| <= INT_MAX
    ensures |bs| == 4 + 24 * |bans|
  {
    WriteInt(|bans|) + WriteRecords(bans, order)
  }

  /**
   * The `for` loop of `loadBans`: reads `count` entries from `rest` and puts
   * each into `acc` in file order, so a repeated UUID keeps its last time.
   */
  function ReadRecords(rest: seq<Byte>, count: int, acc: BanList): (r: Result<BanList, LoadError>)
    decreases if count > 0 then count else 0
  {
    if count <= 0 then Success(acc)
    else if |rest| < 24 then Failure(EndOfFile)
    else
      var id := Uuid(ReadLong(rest[0..8]), ReadLong(rest[8..16]));
      ReadRecords(rest[24..], count - 1, acc[id := ReadLong(rest[16..24])])
  }

  /**
   * The loop fails exactly when the bytes run out before `count` entries
   * are read; otherwise it keeps every earlier entry's key and adds at most
   * `count` keys.
   */
  lemma {:induction false} ReadRecordsOutcome(rest: seq<Byte>, count: int, acc: BanList)
    ensures ReadRecords(rest, count, acc).Failure? <==> count > 0 && |rest| < 24 * count
    ensures ReadRecords(rest, count, acc).Success? ==> acc.Keys <= ReadRecords(rest, count, acc).value.Keys
    ensures ReadRecords(rest, count, acc).Success? ==>
      |ReadRecords(rest, count, acc).value| <= |acc| + (if count > 0 then count else 0)
    decreases if count > 0 then count else 0
  {
    if count > 0 && |rest| >= 24 {
      var id := Uuid(ReadLong(rest[0..8]), ReadLong(rest[8..16]));
      var acc' := acc[id := ReadLong(rest[16..24])];
      assert acc'.Keys == acc.Keys + {id};
      ReadRecordsOutcome(rest[24..], count - 1, acc');
    }
  }

  /** The entry count a file declares in its first four bytes. */
  function DeclaredCount(bs: seq<Byte>): (count: Int32)
    requires |bs| >= 4
  {
    ReadInt(bs[..4])
  }

  /** The map `loadBans` reads from `bs`, or the end-of-file error it raises. */
  function Decode(bs: seq<Byte>): (r: Result<BanList, LoadError>)
    ensures r.Failure? <==> |bs| < 4 || (DeclaredCount(bs) > 0 && |bs| < 4 + 24 * DeclaredCount(bs))
    ensures r.Success? ==> |r.value| <= (if DeclaredCount(bs) > 0 then DeclaredCount(bs) else 0)
  {
    if |bs| < 4 then Failure(EndOfFile)
    else
      ReadRecordsOutcome(bs[4..], DeclaredCount(bs), map[]);
      ReadRecords(bs[4..], DeclaredCount(bs), map[])
  }

  /**
   * `loadBans`: the ban list after loading. `file` is `None` when no ban file
   * exists, which leaves `current` in place; a failed read leaves no bans.
   */
  function Load(current: BanList, file: Option<seq<Byte>>): (r: BanList)
    ensures file.None? ==> r == current
    ensures file.Some? && |file.value| < 4 ==> r == map[]
    ensures file.Some? && |file.value| >= 4 ==>
      |r| <= (if DeclaredCount(file.value) > 0 then DeclaredCount(file.value) else 0)
  {
    match file
    case None => current
    case Some(bs) =>
      match Decode(bs)
      case Success(bans) => bans
      case Failure(_) => map[]
  }

  /** The entries of `bans` whose keys appear in `order`. */
  function Listed(bans: BanList, order: seq<Uuid>): (listed: BanList) {
    map id | id in order && id in bans :: bans[id]
  }

  /** Reading one written entry puts exactly that entry and moves past its 24 bytes. */
  lemma ReadOneRecord(id: Uuid, bannedAt: Int64, tail: seq<Byte>, count: int, acc: BanList)
    requires count > 0
    ensures ReadRecords(WriteRecord(id, bannedAt) + tail, count, acc) == ReadRecords(tail, count - 1, acc[id := bannedAt])
  {
    var rest := WriteRecord(id, bannedAt) + tail;
    assert rest[0..8] == WriteLong(id.mostSigBits);
    assert rest[8..16] == WriteLong(id.leastSigBits);
    assert rest[16..24] == WriteLong(bannedAt);
    assert rest[24..] == tail;
    ReadWriteLong(id.mostSigBits);
    ReadWriteLong(id.leastSigBits);
    ReadWriteLong(bannedAt);
  }

  lemma ListedCons(bans: BanList, order: seq<Uuid>, acc: BanList)
    requires |order| > 0 && order[0] in bans
    ensures acc[order[0] := bans[order[0]]] + Listed(bans, order[1..]) == acc + Listed(bans, order)
  {
    assert forall k :: k in order <==> k == order[0] || k in order[1..];
  }

  /** Reading back the first written entry leaves the rest of the written entries. */
  lemma ReadFirstWritten(bans: BanList, order: seq<Uuid>, extra: seq<Byte>, acc: BanList)
    requires |order| > 0
    requires forall i :: 0 <= i < |order| ==> order[i] in bans
    ensures ReadRecords(WriteRecords(bans, order) + extra, |order|, acc)
         == ReadRecords(WriteRecords(bans, order[1..]) + extra, |order| - 1, acc[order[0] := bans[order[0]]])
  {
    var id := order[0];
    var tailBytes := WriteRecords(bans, order[1..]) + extra;
    assert WriteRecords(bans, order) + extra == WriteRecord(id, bans[id]) + tailBytes;
    ReadOneRecord(id, bans[id], tailBytes, |order|, acc);
  }

  lemma {:induction false} ReadWrittenRecords(bans: BanList, order: seq<Uuid>, extra: seq<Byte>, acc: BanList)
    requires forall i :: 0 <= i < |order| ==> order[i] in bans
    ensures ReadRecords(WriteRecords(bans, order) + extra, |order|, acc) == Success(acc + Listed(bans, order))
    decreases |order|
  {
    if |order| == 0 {
      assert Listed(bans, order) == map[];
      assert acc + Listed(bans, order) == acc;
    } else {
      ReadFirstWritten(bans, order, extra, acc);
      ReadWrittenRecords(bans, order[1..], extra, acc[order[0] := bans[order[0]]]);
      ListedCons(bans, order, acc);
    }
  }

  /**
   * Loading what `saveBans` wrote gives back the saved map, whatever the
   * iteration order and whatever follows the last entry in the file.
   */
  lemma EncodeDecode(bans: BanList, order: seq<Uuid>, extra: seq<Byte>)
    requires IsEnumeration(order, bans)
    requires |bans| <= INT_MAX
    ensures Decode(Encode(bans, order) + extra) == Success(bans)
  {
    DecodeHeader(bans, order, extra);
    ReadWrittenRecords(bans, order, extra, map[]);
    ListedEnumeration(bans, order);
  }

  /** Listing the entries of an enumeration recovers the whole map. */
  lemma ListedEnumeration(bans: BanList, order: seq<Uuid>)
    requires IsEnumeration(order, bans)
    ensures map[] + Listed(bans, order) == bans
  {
    EnumerationCovers(order, bans);
    assert Listed(bans, order).Keys == bans.Keys;
  }

  /** Decoding a saved file reads its count back and runs the entry loop over the rest. */
  lemma DecodeHeader(bans: BanList, order: seq<Uuid>, extra: seq<Byte>)
    requires IsEnumeration(order, bans)
    requires |bans| <= INT_MAX
    ensures Decode(Encode(bans, order) + extra) == ReadRecords(WriteRecords(bans, order) + extra, |bans|, map[])
  {
    var bs := Encode(bans, order) + extra;
    assert bs == WriteInt(|bans|) + (WriteRecords(bans, order) + extra);
    assert bs[..4] == WriteInt(|bans|);
    ReadWriteInt(|bans|);
    assert DeclaredCount(bs) == |bans|;
    assert bs[4..] == WriteRecords(bans, order) + extra;
    assert Decode(bs) == ReadRecords(bs[4..], DeclaredCount(bs), map[]);
  }

  /** Loading a saved file restores the saved ban list. */
  lemma LoadSaved(current: BanList, bans: BanList, order: seq<Uuid>)
    requires IsEnumeration(order, bans)
    requires |bans| <= INT_MAX
    ensures Load(current, Some(Encode(bans, order))) == bans
  {
    EncodeDecode(bans, order, []);
    assert Encode(bans, order) + [] == Encode(bans, order);
  }

  /** A file that ends before the entries it declares loads as an empty ban list. */
  lemma LoadTruncated(current: BanList, bs: seq<Byte>)
    requires |bs| < 4 || (DeclaredCount(bs) > 0 && |bs| < 4 + 24 * DeclaredCount(bs))
    ensures Load(current, Some(bs)) == map[]
  {
  }

  /** A file holding a non-positive count loads as empty whatever follows it. */
  lemma LoadNonPositiveCount(current: BanList, bs: seq<Byte>)
    requires |bs| >= 4 && DeclaredCount(bs) <= 0
    ensures Load(current, Some(bs)) == map[]
  {
  }

  /** Every proper prefix of a saved file loads as an empty ban list. */
  lemma LoadCutShort(current: BanList, bans: BanList, order: seq<Uuid>, n: nat)
    requires IsEnumeration(order, bans)
    requires |bans| <= INT_MAX
    requires n < |Encode(bans, order)|
    ensures Load(current, Some(Encode(bans, order)[..n])) == map[]
  {
    var bs := Encode(bans, order);
    var prefix := bs[..n];
    if n >= 4 {
      assert prefix[..4] == WriteInt(|bans|);
      ReadWriteInt(|bans|);
      assert DeclaredCount(prefix) == |bans|;
    }
  }
}
