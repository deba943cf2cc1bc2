/** The on-disk packing of an allocation table, and that FatEntry undoes it. */
module FatTable {
  import opened Bits
  import opened Card
  import opened FatVolume

  type Entry12 = e: nat | e < 4096
  type Entry16 = e: nat | e < 0x1_0000

  /** Two 12-bit entries in three bytes, low nibble first. */
  function Pack12(e: seq<Entry12>): seq<byte> {
    if e == [] then []
    else if |e| == 1 then [e[0] % 256, e[0] / 256]
    else [e[0] % 256, e[0] / 256 + e[1] % 16 * 16, e[1] / 16] + Pack12(e[2..])
  }

  function Pack16(e: seq<Entry16>): seq<byte> {
    if e == [] then [] else [e[0] % 256, e[0] / 256] + Pack16(e[1..])
  }

  /** bytes fills consecutive sectors from base on. */
  ghost predicate Laid(d: Image, base: nat, bytes: seq<byte>) {
    forall j :: 0 <= j < |bytes| ==> base + j / 512 < |d| && Byte(d, base + j / 512, j % 512) == bytes[j]
  }

  function WordAt(s: seq<byte>, at: nat): nat {
    (if at < |s| then s[at] as int else 0) + 256 * (if at + 1 < |s| then s[at + 1] as int else 0)
  }

  lemma LaidWord(d: Image, base: nat, bytes: seq<byte>, bc: nat)
    requires Laid(d, base, bytes) && bc + 1 < |bytes|
    ensures TableWord(d, base, bc) == WordAt(bytes, bc)
  {
    assert Byte(d, base + bc / 512, bc % 512) == bytes[bc];
    assert Byte(d, base + (bc + 1) / 512, (bc + 1) % 512) == bytes[bc + 1];
  }

  lemma WordAtTail(head: seq<byte>, tail: seq<byte>, at: nat)
    ensures WordAt(head + tail, |head| + at) == WordAt(tail, at)
  {}

  lemma {:induction false} Packed12(e: seq<Entry12>, c: nat)
    requires c < |e|
    ensures c + c / 2 + 1 < |Pack12(e)|
    ensures var w := WordAt(Pack12(e), c + c / 2);
            e[c] == if c % 2 == 1 then w / 16 else w % 4096
  {
    if c >= 2 {
      Packed12(e[2..], c - 2);
      var head := [e[0] % 256, e[0] / 256 + e[1] % 16 * 16, e[1] / 16];
      WordAtTail(head, Pack12(e[2..]), c - 2 + (c - 2) / 2);
    }
  }

  lemma {:induction false} Packed16(e: seq<Entry16>, c: nat)
    requires c < |e|
    ensures 2 * c + 1 < |Pack16(e)|
    ensures WordAt(Pack16(e), 2 * c) == e[c]
  {
    if c >= 1 {
      Packed16(e[1..], c - 1);
      WordAtTail([e[0] % 256, e[0] / 256], Pack16(e[1..]), 2 * (c - 1));
    }
  }

  /** get_fat reads entry c of a packed FAT12 table, whether c is odd or even and
      whether or not its two bytes lie in different sectors. */
  lemma Fat12Decodes(d: Image, v: Volume, e: seq<Entry12>, c: nat)
    requires v.fsType.Fat12? && |e| == v.nFatent && Laid(d, v.fatbase, Pack12(e))
    requires 2 <= c < v.nFatent
    ensures FatEntry(d, v, c) == e[c]
  {
    Packed12(e, c);
    LaidWord(d, v.fatbase, Pack12(e), c + c / 2);
  }

  lemma Fat16Decodes(d: Image, v: Volume, e: seq<Entry16>, c: nat)
    requires v.fsType.Fat16? && |e| == v.nFatent && Laid(d, v.fatbase, Pack16(e))
    requires 2 <= c < v.nFatent
    ensures FatEntry(d, v, c) == e[c]
  {
    Packed16(e, c);
    LaidWord(d, v.fatbase, Pack16(e), 2 * c);
  }
}
