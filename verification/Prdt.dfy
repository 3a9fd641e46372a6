/** The table that tells the disk controller where in memory a transfer goes. */
module Prdt {

  const SECTOR: int := 512
  /** A full entry: sixteen sectors. */
  const CHUNK: int := 0x2000
  const ENTRIES: int := 8

  /** An entry of the table; the byte count is stored less one. */
  datatype Region = Region(base: nat, byteCount: nat, interrupt: bool) {
    predicate Holds(address: int) {
      base <= address <= base + byteCount
    }
  }

  const EMPTY: Region := Region(0, 0, false)

  ghost function Tiles(buffer: nat, sectors: nat): (t: seq<Region>)
    requires sectors >= 1
    ensures |t| >= 1
    decreases sectors
  {
    if sectors <= 16 then [Region(buffer, sectors * SECTOR - 1, true)]
    else [Region(buffer, CHUNK - 1, true)] + Tiles(buffer + CHUNK, sectors - 16)
  }

  ghost function TotalBytes(t: seq<Region>): nat {
    if t == [] then 0 else t[0].byteCount + 1 + TotalBytes(t[1..])
  }

  lemma {:induction false} TilesAddUp(buffer: nat, sectors: nat)
    requires sectors >= 1
    ensures TotalBytes(Tiles(buffer, sectors)) == sectors * 512
    ensures |Tiles(buffer, sectors)| == (sectors - 1) / 16 + 1
    decreases sectors
  {
    if sectors > 16 {
      TilesAddUp(buffer + CHUNK, sectors - 16);
      assert Tiles(buffer, sectors)[1..] == Tiles(buffer + CHUNK, sectors - 16);
    } else {
      assert Tiles(buffer, sectors)[1..] == [];
    }
  }

  method Clear(prdt: array<Region>)
    modifies prdt
    ensures forall k | 0 <= k < prdt.Length :: prdt[k] == EMPTY
  {
    for i := 0 to prdt.Length
      invariant forall k | 0 <= k < i :: prdt[k] == EMPTY
    {
      prdt[i] := EMPTY;
    }
  }

  /** Clears the table and fills it; the table has room for 128 sectors. */
  method Build(buffer: nat, sectors: nat, prdt: array<Region>) returns (length: nat)
    requires 1 <= sectors <= 16 * ENTRIES && prdt.Length == ENTRIES
    modifies prdt
    ensures length == |Tiles(buffer, sectors)| <= ENTRIES
    ensures prdt[..] == Tiles(buffer, sectors) + seq(ENTRIES - length, _ => EMPTY)
  {
    length := (sectors - 1) / 16 + 1;
    ghost var tiles := Tiles(buffer, sectors);
    TilesAddUp(buffer, sectors);
    Clear(prdt);
    var base: nat, left: nat := buffer, sectors;
    var i := 0;
    while i < length - 1
      invariant 0 <= i <= length - 1 && left == sectors - 16 * i
      invariant tiles[i..] == Tiles(base, left)
      invariant forall k | 0 <= k < i :: prdt[k] == tiles[k]
      invariant forall k | i <= k < ENTRIES :: prdt[k] == EMPTY
    {
      assert tiles[i..][0] == tiles[i] && tiles[i..][1..] == tiles[i + 1..];
      prdt[i] := Region(base, CHUNK - 1, true);
      base := base + CHUNK;
      left := left - 16;
      i := i + 1;
    }
    assert tiles[i..][0] == tiles[i];
    prdt[i] := Region(base, left * SECTOR - 1, true);
  }

  /** The entries lie one behind the other, each of one to sixteen sectors, and each asks for an
      interrupt on completion. */
  lemma {:induction false} TilesAreContiguous(buffer: nat, sectors: nat, k: nat)
    requires sectors >= 1 && k < |Tiles(buffer, sectors)|
    ensures Tiles(buffer, sectors)[k].base == buffer + k * 0x2000 && Tiles(buffer, sectors)[k].interrupt
    ensures exists n | 1 <= n <= 16 :: Tiles(buffer, sectors)[k].byteCount + 1 == n * 512
    ensures k + 1 < |Tiles(buffer, sectors)| ==> Tiles(buffer, sectors)[k].byteCount + 1 == 0x2000
    decreases sectors
  {
    if sectors <= 16 {
      assert Tiles(buffer, sectors)[0].byteCount + 1 == sectors * SECTOR;
    } else if k == 0 {
      assert Tiles(buffer, sectors)[0].byteCount + 1 == 16 * SECTOR;
    } else {
      TilesAreContiguous(buffer + CHUNK, sectors - 16, k - 1);
    }
  }

  /** Every byte of the transfer has exactly one entry, and no byte outside it has one. */
  lemma {:induction false} TilesCover(buffer: nat, sectors: nat, address: int, k: nat)
    requires sectors >= 1 && k < |Tiles(buffer, sectors)|
    ensures Tiles(buffer, sectors)[k].Holds(address) <==>
      buffer <= address < buffer + sectors * SECTOR && (address - buffer) / CHUNK == k
    decreases sectors
  {
    if sectors > 16 {
      TilesAddUp(buffer + CHUNK, sectors - 16);
      if k > 0 {
        TilesCover(buffer + CHUNK, sectors - 16, address, k - 1);
      }
    }
  }

  /** The entry that holds a byte of the transfer is in the table. */
  lemma TilesReach(buffer: nat, sectors: nat, address: int)
    requires sectors >= 1 && buffer <= address < buffer + sectors * SECTOR
    ensures 0 <= (address - buffer) / CHUNK < |Tiles(buffer, sectors)|
  {
    TilesAddUp(buffer, sectors);
  }
}
