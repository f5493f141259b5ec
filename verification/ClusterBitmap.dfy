// Slot bitmaps: 16384 bits in 2048 bytes.
module ClusterBitmap {

  const SLOTS: nat := 16384

  type Bitmap = b: seq<bv8> | |b| == SLOTS / 8 witness seq(SLOTS / 8, i => 0)

  // 1 << k
  function Mask(k: nat): bv8
    requires k < 8
  {
    match k case 0 => 1 case 1 => 2 case 2 => 4 case 3 => 8 case 4 => 16 case 5 => 32 case 6 => 64 case _ => 128
  }

  predicate Has(b: bv8, k: nat) requires k < 8 { b & Mask(k) != 0 }

  function With(b: bv8, k: nat): bv8 requires k < 8 { b | Mask(k) }

  function Without(b: bv8, k: nat): bv8 requires k < 8 { b & !Mask(k) }

  predicate TestBit(bitmap: Bitmap, pos: nat)
    requires pos < SLOTS
  {
    Has(bitmap[pos / 8], pos % 8)
  }

  function SetBit(bitmap: Bitmap, pos: nat): Bitmap
    requires pos < SLOTS
  {
    bitmap[pos / 8 := With(bitmap[pos / 8], pos % 8)]
  }

  function ClearBit(bitmap: Bitmap, pos: nat): Bitmap
    requires pos < SLOTS
  {
    bitmap[pos / 8 := Without(bitmap[pos / 8], pos % 8)]
  }

  lemma MaskSet(b: bv8, k: nat, l: nat)
    requires k < 8 && l < 8
    ensures Has(With(b, k), l) == (k == l || Has(b, l))
  {}

  lemma MaskClear(b: bv8, k: nat, l: nat)
    requires k < 8 && l < 8
    ensures Has(Without(b, k), l) == (k != l && Has(b, l))
  {}

  // Each bit is on its own: writing one leaves all the others.
  lemma SetBitAt(bitmap: Bitmap, pos: nat, j: nat)
    requires pos < SLOTS && j < SLOTS
    ensures TestBit(SetBit(bitmap, pos), j) == (j == pos || TestBit(bitmap, j))
  {
    hide Has, With, Without;
    MaskSet(bitmap[pos / 8], pos % 8, j % 8);
  }

  lemma ClearBitAt(bitmap: Bitmap, pos: nat, j: nat)
    requires pos < SLOTS && j < SLOTS
    ensures TestBit(ClearBit(bitmap, pos), j) == (j != pos && TestBit(bitmap, j))
  {
    hide Has, With, Without;
    MaskClear(bitmap[pos / 8], pos % 8, j % 8);
  }

  // How many of the first n bits are set.
  function PopCount(bitmap: Bitmap, n: nat): (c: nat)
    requires n <= SLOTS
    ensures c <= n
  {
    if n == 0 then 0 else PopCount(bitmap, n - 1) + if TestBit(bitmap, n - 1) then 1 else 0
  }
}
