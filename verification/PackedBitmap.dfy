/** Two-bit frame statuses packed four to a byte. */
module PackedBitmap {
  import opened FrameMap

  function Encode(s: Status): bv8 {
    match s
    case Free => 0
    case Used => 1
    case Reserved => 2
    case Reserved2 => 3
  }

  function Decode(b: bv8): Status {
    if b == 0 then Free else if b == 1 then Used else if b == 2 then Reserved else Reserved2
  }

  function GetSlot(pack: bv8, slot: nat): bv8
    requires slot < 4
  {
    (pack >> (slot * 2)) & 0x03
  }

  function SetSlot(pack: bv8, slot: nat, status: bv8): bv8
    requires slot < 4
  {
    (pack & !(0x03 << (slot * 2))) | ((status & 0x03) << (slot * 2))
  }

  /** Writing one slot of a byte changes that slot and no other. */
  lemma SetSlotGetSlot(pack: bv8, slot: nat, other: nat, status: bv8)
    requires slot < 4 && other < 4
    ensures GetSlot(SetSlot(pack, slot, status), other)
         == if other == slot then status & 0x03 else GetSlot(pack, other)
  {
    match slot
    case 0 => SetSlot0(pack, other, status);
    case 1 => SetSlot1(pack, other, status);
    case 2 => SetSlot2(pack, other, status);
    case 3 => SetSlot3(pack, other, status);
  }

  lemma SetSlot0(pack: bv8, other: nat, status: bv8)
    requires other < 4
    ensures GetSlot(SetSlot(pack, 0, status), other) == if other == 0 then status & 0x03 else GetSlot(pack, other)
  {
    match other
    case 0 =>
    case 1 =>
    case 2 =>
    case 3 =>
  }

  lemma SetSlot1(pack: bv8, other: nat, status: bv8)
    requires other < 4
    ensures GetSlot(SetSlot(pack, 1, status), other) == if other == 1 then status & 0x03 else GetSlot(pack, other)
  {
    match other
    case 0 =>
    case 1 =>
    case 2 =>
    case 3 =>
  }

  lemma SetSlot2(pack: bv8, other: nat, status: bv8)
    requires other < 4
    ensures GetSlot(SetSlot(pack, 2, status), other) == if other == 2 then status & 0x03 else GetSlot(pack, other)
  {
    match other
    case 0 =>
    case 1 =>
    case 2 =>
    case 3 =>
  }

  lemma SetSlot3(pack: bv8, other: nat, status: bv8)
    requires other < 4
    ensures GetSlot(SetSlot(pack, 3, status), other) == if other == 3 then status & 0x03 else GetSlot(pack, other)
  {
    match other
    case 0 =>
    case 1 =>
    case 2 =>
    case 3 =>
  }

  /** The status the bitmap bytes hold for frame f. */
  function StatusAt(bytes: seq<bv8>, f: nat): Status
    requires f / 4 < |bytes|
  {
    Decode(GetSlot(bytes[f / 4], f % 4))
  }

  /** The bytes after the bitmap entry of one frame is overwritten. */
  function WithEntry(bytes: seq<bv8>, frame: nat, s: Status): (r: seq<bv8>)
    requires frame / 4 < |bytes|
    ensures |r| == |bytes|
  {
    bytes[frame / 4 := SetSlot(bytes[frame / 4], frame % 4, Encode(s))]
  }

  /** An entry write sets the status of its frame and of no other frame. */
  lemma WithEntryStatus(bytes: seq<bv8>, frame: nat, s: Status, f: nat)
    requires frame / 4 < |bytes| && f / 4 < |bytes|
    ensures StatusAt(WithEntry(bytes, frame, s), f) == if f == frame then s else StatusAt(bytes, f)
  {
    SetSlotGetSlot(bytes[frame / 4], frame % 4, f % 4, Encode(s));
    assert f / 4 == frame / 4 && f % 4 == frame % 4 <==> f == frame;
    assert Encode(s) & 0x03 == Encode(s);
    assert Decode(Encode(s)) == s;
  }

  /** The frame-to-status map of the first n frames. */
  ghost function ToMap(bytes: seq<bv8>, n: nat): (m: Map)
    requires n <= 4 * |bytes|
    ensures |m| == n
  {
    if n == 0 then [] else ToMap(bytes, n - 1) + [StatusAt(bytes, n - 1)]
  }

  lemma {:induction false} ToMapAt(bytes: seq<bv8>, n: nat, f: nat)
    requires f < n <= 4 * |bytes|
    ensures ToMap(bytes, n)[f] == StatusAt(bytes, f)
  {
    if f < n - 1 {
      ToMapAt(bytes, n - 1, f);
    }
  }

  /** On the map, an entry write is a point update (or nothing, past the end). */
  lemma WithEntryMap(bytes: seq<bv8>, n: nat, frame: nat, s: Status)
    requires n <= 4 * |bytes| && frame / 4 < |bytes|
    ensures ToMap(WithEntry(bytes, frame, s), n)
         == if frame < n then ToMap(bytes, n)[frame := s] else ToMap(bytes, n)
  {
    var after := WithEntry(bytes, frame, s);
    forall f | 0 <= f < n
      ensures ToMap(after, n)[f] == if f == frame then s else ToMap(bytes, n)[f]
    {
      ToMapAt(after, n, f);
      ToMapAt(bytes, n, f);
      WithEntryStatus(bytes, frame, s, f);
    }
  }

  /** Zeroed bytes read as free frames. */
  lemma ZeroIsFree(bytes: seq<bv8>, f: nat)
    requires f / 4 < |bytes| && bytes[f / 4] == 0
    ensures StatusAt(bytes, f) == Free
  {
    var slot := f % 4;
    match slot {
      case 0 => case 1 => case 2 => case 3 =>
    }
  }
}
