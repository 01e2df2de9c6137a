/** The free bit map as bytes: the test, set and clear of one bit in `balloc` and `bfree`, and the search for a free
bit.

The bytes of all bitmap blocks are taken as one array; bit `b % BPB` of block `b / BPB` is then bit `b` of the array,
because a block holds a whole number of bytes. `View` reads them as one flag a block.
 */
module Bitmap {
  import opened Blocks

  function Mask(k: nat): bv8
    requires k < 8
  {
    match k
    case 0 => 1
    case 1 => 2
    case 2 => 4
    case 3 => 8
    case 4 => 16
    case 5 => 32
    case 6 => 64
    case _ => 128
  }

  /** The mask is the shift in the source. */
  lemma MaskIsShift(k: nat)
    requires k < 8
    ensures Mask(k) == (1 as bv8) << k
  {
  }

  /** The test, the set and the clear on one byte. */
  predicate Has(x: bv8, k: nat)
    requires k < 8
  {
    x & Mask(k) != 0
  }

  function With(x: bv8, k: nat): bv8
    requires k < 8
  {
    x | Mask(k)
  }

  function Without(x: bv8, k: nat): bv8
    requires k < 8
  {
    x & !Mask(k)
  }

  lemma MasksAreApart(x: bv8, j: nat, k: nat)
    requires j < 8 && k < 8
    ensures Has(With(x, j), k) <==> (j == k || Has(x, k))
    ensures Has(Without(x, j), k) <==> (j != k && Has(x, k))
  {
  }

  lemma NoFlags(k: nat)
    requires k < 8
    ensures !Has(0, k)
  {
  }

  lemma ByteAndBack(x: bv8)
    ensures (x as Byte) as bv8 == x
  {
  }

  predicate Bit(bytes: seq<bv8>, b: nat)
    requires b / 8 < |bytes|
  {
    Has(bytes[b/8], b % 8)
  }

  function SetBit(bytes: seq<bv8>, b: nat): (r: seq<bv8>)
    requires b / 8 < |bytes|
    ensures |r| == |bytes|
  {
    bytes[b/8 := With(bytes[b/8], b % 8)]
  }

  function ClearBit(bytes: seq<bv8>, b: nat): (r: seq<bv8>)
    requires b / 8 < |bytes|
    ensures |r| == |bytes|
  {
    bytes[b/8 := Without(bytes[b/8], b % 8)]
  }

  lemma SameByteSameBit(b: nat, c: nat)
    requires b / 8 == c / 8 && b % 8 == c % 8
    ensures b == c
  {
    assert b == 8 * (b / 8) + b % 8 && c == 8 * (c / 8) + c % 8;
  }

  lemma BitAfterSet(bytes: seq<bv8>, b: nat, c: nat)
    requires b / 8 < |bytes| && c / 8 < |bytes|
    ensures Bit(SetBit(bytes, b), c) <==> (b == c || Bit(bytes, c))
    ensures Bit(ClearBit(bytes, b), c) <==> (b != c && Bit(bytes, c))
  {
    hide Has, With, Without;
    if b / 8 == c / 8 {
      MasksAreApart(bytes[b/8], b % 8, c % 8);
      if b % 8 == c % 8 {
        SameByteSameBit(b, c);
      }
    }
  }

  /** What the two updates do to the view. */
  lemma ViewAfterSet(bytes: seq<bv8>, n: nat, b: nat)
    requires b < n <= 8 * |bytes|
    ensures View(SetBit(bytes, b), n) == View(bytes, n)[b := true]
    ensures View(ClearBit(bytes, b), n) == View(bytes, n)[b := false]
  {
    hide Bit, SetBit, ClearBit;
    var s: seq<bv8> := SetBit(bytes, b);
    var t: seq<bv8> := ClearBit(bytes, b);
    forall c: nat | c < n
      ensures View(s, n)[c] == View(bytes, n)[b := true][c]
      ensures View(t, n)[c] == View(bytes, n)[b := false][c]
    {
      BitAfterSet(bytes, b, c);
    }
  }

  /** One flag for each of the first `n` blocks. */
  ghost function View(bytes: seq<bv8>, n: nat): (v: seq<bool>)
    requires n <= 8 * |bytes|
    ensures |v| == n && forall b :: 0 <= b < n ==> (v[b] <==> Bit(bytes, b))
  {
    seq(n, b requires 0 <= b < n => Bit(bytes, b))
  }

  /** The search of `balloc`: the first free block is marked in use; `None` is "out of blocks". */
  method Allocate(bytes: array<bv8>, n: nat) returns (r: Option<nat>)
    requires n <= 8 * bytes.Length
    modifies bytes
    ensures r == None ==> bytes[..] == old(bytes[..]) && forall b :: 0 <= b < n ==> View(bytes[..], n)[b]
    ensures r.Some? ==> var was := View(old(bytes[..]), n);
              && r.value < n && !was[r.value] && (forall b :: 0 <= b < r.value ==> was[b])
              && View(bytes[..], n) == was[r.value := true]
  {
    hide Has, With, Without;
    ghost var was := bytes[..];
    for b := 0 to n
      invariant bytes[..] == was && forall c :: 0 <= c < b ==> Bit(was, c)
    {
      if !Has(bytes[b/8], b % 8) {
        bytes[b/8] := With(bytes[b/8], b % 8);
        assert bytes[..] == SetBit(was, b);
        ViewAfterSet(was, n, b);
        return Some(b);
      }
    }
    return None;
  }

  /** The bit work of `bfree`; false is the panic "freeing free block". */
  method Free(bytes: array<bv8>, n: nat, b: nat) returns (ok: bool)
    requires n <= 8 * bytes.Length && b < n
    modifies bytes
    ensures ok <==> View(old(bytes[..]), n)[b]
    ensures View(bytes[..], n) == View(old(bytes[..]), n)[b := false]
  {
    hide Has, With, Without;
    ghost var was := bytes[..];
    if !Has(bytes[b/8], b % 8) {
      return false;
    }
    bytes[b/8] := Without(bytes[b/8], b % 8);
    assert bytes[..] == ClearBit(was, b);
    ViewAfterSet(was, n, b);
    return true;
  }
}
