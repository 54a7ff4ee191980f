/** Arithmetic of the string block layout.

    A byte string of length `len` is stored in a block of `Wosize(len, w)`
    words of `w` bytes each.  The final byte of the block holds the pad count
    `Pad(len, w)`, the number of bytes of the block that follow the string
    minus one, so the length is recovered from the word count and that byte
    alone.  Every lemma here holds for any positive word size `w`. */
module Layout {

  /** Words allocated for a string of `len` bytes: `(len + w) / w`, the least
      number of words that holds `len` bytes and one pad byte. */
  function Wosize(len: nat, w: nat): (wo: nat)
    requires w > 0
    ensures wo >= 1
    ensures w * (wo - 1) <= len < w * wo
  {
    var q := (len + w) / w;
    assert len + w == w * q + (len + w) % w;
    q
  }

  /** Length recovered from a block of `wo` words whose last byte is `p`. */
  function Length(wo: nat, p: nat, w: nat): int
  {
    w * wo - 1 - p
  }

  /** Value stored in the last byte of the block: the offset of that byte
      minus the string length.  It always fits below the word size, and the
      length is recovered from it. */
  function Pad(len: nat, w: nat): (p: nat)
    requires w > 0
    ensures p < w
    ensures Length(Wosize(len, w), p, w) == len
  {
    var wo := Wosize(len, w);
    assert w * (wo - 1) == w * wo - w;
    w * wo - 1 - len
  }

  /** Multiplication by a positive word size is strictly monotonic. */
  lemma {:induction false} MulStrict(w: nat, a: nat, b: nat)
    requires w > 0 && a < b
    ensures w * a < w * b
  {
    if b == a + 1 {
      assert w * b == w * a + w;
    } else {
      MulStrict(w, a, b - 1);
      assert w * b == w * (b - 1) + w;
    }
  }

  /** The layout is the only one with a pad below the word size that
      encodes `len`: the recovered length determines word count and pad. */
  lemma LayoutUnique(len: nat, wo: nat, p: nat, w: nat)
    requires w > 0 && p < w
    requires Length(wo, p, w) == len
    ensures wo == Wosize(len, w) && p == Pad(len, w)
  {
    var q := Wosize(len, w);
    assert w * wo == len + 1 + p;
    if wo < q {
      MulStrict(w, wo, q);
      assert w * (q - 1) == w * q - w;
      if wo < q - 1 {
        MulStrict(w, wo, q - 1);
      }
      assert false;
    } else if q < wo {
      MulStrict(w, q, wo);
      assert w * (wo - 1) == w * wo - w;
      if q < wo - 1 {
        MulStrict(w, q, wo - 1);
      }
      assert false;
    }
  }
}
