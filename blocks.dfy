/** Heap values and blocks: the header (size and tag), the two body kinds,
    the shared atoms, the string block built by copy_string, and the header
    rewrite performed by update_dummy. */
module Blocks {
  import opened Layout

  datatype Option<T> = None | Some(value: T)

  type Ref = nat
  type Byte = bv8

  /** Bytes per word, `sizeof(value)` on a 64-bit target. */
  const W: nat := 8
  /** Tags fit in the 8 bits the header reserves for them. */
  const NumTags: nat := 256
  /** Blocks with a tag at or above this one hold raw data, never scanned. */
  const NoScanTag: nat := 251
  const StringTag: nat := 252
  /** Largest block taken from the minor heap. */
  const MaxYoungWosize: nat := 256

  type Tag = t: nat | t < NumTags

  /** A word as the collector sees it: the all-zero word that fresh fields
      are set to, a tagged integer, or a reference to a block. */
  datatype Value = Null | Int(n: int) | Ptr(r: Ref)

  /** The words of a block: values for a scannable tag, raw bytes (a whole
      number of words) for a tag at or above NoScanTag. */
  datatype Body = Fields(vals: seq<Value>) | Bytes(data: seq<Byte>)

  datatype Obj = Obj(tag: Tag, body: Body)

  /** Word count recorded in the header. */
  function Size(o: Obj): nat
  {
    match o.body
    case Fields(vs) => |vs|
    case Bytes(bs) => |bs| / W
  }

  predicate WellFormed(o: Obj)
  {
    && (o.tag < NoScanTag <==> o.body.Fields?)
    && (o.body.Bytes? ==> |o.body.data| % W == 0)
  }

  function Zeros(n: nat): (z: seq<Byte>)
    ensures |z| == n && forall k :: 0 <= k < n ==> z[k] == 0
  {
    seq(n, _ => 0)
  }

  /** A well-formed body of `wosize` zero words for `tag`. */
  function Blank(tag: Tag, wosize: nat): (o: Obj)
    ensures WellFormed(o) && o.tag == tag && Size(o) == wosize
  {
    if tag < NoScanTag then Obj(tag, Fields(seq(wosize, _ => Null)))
    else Obj(tag, Bytes(Zeros(W * wosize)))
  }

  /** Reference of the shared zero-size block for `tag` (the atom table). */
  function Atom(tag: Tag): Ref
  {
    tag
  }

  function AtomObj(tag: Tag): (o: Obj)
    ensures WellFormed(o) && o.tag == tag && Size(o) == 0
  {
    Obj(tag, if tag < NoScanTag then Fields([]) else Bytes([]))
  }

  /** Length of a string block, recovered from its word count and its last
      byte. */
  function StringLength(o: Obj): int
    requires o.body.Bytes? && |o.body.data| > 0
  {
    var bs := o.body.data;
    Length(|bs| / W, bs[|bs| - 1] as int, W)
  }

  /** The bytes of a string block, up to its recovered length. */
  function StringBytes(o: Obj): seq<Byte>
    requires o.body.Bytes? && |o.body.data| > 0 && 0 <= StringLength(o)
  {
    o.body.data[..StringLength(o)]
  }

  /** The string block that copy_string builds for the bytes `b`: `b`, zero
      bytes up to the end of the block, and the pad count in the last byte. */
  function StringBlock(b: seq<Byte>): (o: Obj)
    ensures WellFormed(o) && o.tag == StringTag && Size(o) == Wosize(|b|, W)
    ensures |o.body.data| == W * Size(o)
    ensures StringLength(o) == |b| && StringBytes(o) == b
    ensures o.body.data[|b|] == 0
  {
    var wo, p := Wosize(|b|, W), Pad(|b|, W);
    var bs := b + Zeros(p) + [p as Byte];
    assert |bs| == W * wo && |bs| / W == wo;
    assert bs[|bs| - 1] as int == p;
    assert bs[..|b|] == b;
    assert bs[|b|] == 0 by {
      if p > 0 { assert bs[|b|] == Zeros(p)[0]; }
    }
    Obj(StringTag, Bytes(bs))
  }

  /** `data` with the bytes from offset `at` replaced by `bs`. */
  function Splice(data: seq<Byte>, at: nat, bs: seq<Byte>): (r: seq<Byte>)
    requires at + |bs| <= |data|
    ensures |r| == |data|
  {
    data[..at] + bs + data[at + |bs|..]
  }

  /** What alloc_string leaves in a block for a string of `len` bytes: the
      word count of the layout, zero bytes from `len` on, and the pad count
      in the last byte.  The bytes before `len` are unspecified. */
  predicate LaidOut(o: Obj, len: nat)
  {
    && o.tag == StringTag && o.body.Bytes?
    && |o.body.data| == W * Wosize(len, W)
    && o.body.data[|o.body.data| - 1] as int == Pad(len, W)
    && forall k :: len <= k < |o.body.data| - 1 ==> o.body.data[k] == 0
  }

  /** The two stores of alloc_string, zeroing the last word and then writing
      the pad count into the last byte, lay a block out for `len` bytes
      whatever it held before. */
  lemma LayOut(data: seq<Byte>, len: nat)
    requires |data| == W * Wosize(len, W)
    ensures var wo := Wosize(len, W);
      var zeroed := Splice(data, W * (wo - 1), Zeros(W));
      LaidOut(Obj(StringTag, Bytes(Splice(zeroed, W * wo - 1, [(W * wo - 1 - len) as Byte]))), len)
  {
    var wo := Wosize(len, W);
    assert W * wo - 1 - len == Pad(len, W);
  }

  /** A laid-out block is a well-formed string block whose recovered length
      is `len` and whose byte `len` is zero. */
  lemma LaidOutLength(o: Obj, len: nat)
    requires LaidOut(o, len)
    ensures WellFormed(o) && Size(o) == Wosize(len, W)
    ensures StringLength(o) == len && o.body.data[len] == 0
  {
    var wo := Wosize(len, W);
    var bs := o.body.data;
    assert len == W * wo - 1 - Pad(len, W);
  }

  /** A block laid out for `|b|` bytes becomes the string block of `b` once
      `b` is copied to its front. */
  lemma FillString(o: Obj, b: seq<Byte>)
    requires LaidOut(o, |b|)
    ensures Obj(StringTag, Bytes(Splice(o.body.data, 0, b))) == StringBlock(b)
  {
    var block := StringBlock(b).body.data;
    var filled := Splice(o.body.data, 0, b);
    assert |filled| == |block|;
    forall k | 0 <= k < |block| ensures filled[k] == block[k] {
    }
  }

  /** strlen: the index of the first zero byte. */
  function Strlen(s: seq<Byte>): (n: nat)
    requires 0 in s
    ensures n < |s| && s[n] == 0
    ensures forall k :: 0 <= k < n ==> s[k] != 0
  {
    if s[0] == 0 then 0 else 1 + Strlen(s[1..])
  }

  /** The bytes copy_string copies from a C string pointer: none for NULL,
      otherwise everything before the terminating zero. */
  function CString(s: Option<seq<Byte>>): seq<Byte>
    requires s.Some? ==> 0 in s.value
  {
    match s
    case None => []
    case Some(m) => m[..Strlen(m)]
  }

  /** NULL is copied as the empty string. */
  lemma NullIsEmpty()
    ensures CString(None) == CString(Some([0])) == []
  {
  }

  /** Number of entries before the first NULL of a NULL-terminated array. */
  function EntryCount<T>(arr: seq<Option<T>>): (n: nat)
    requires None in arr
    ensures n < |arr| && arr[n] == None
    ensures forall k :: 0 <= k < n ==> arr[k].Some?
  {
    if arr[0] == None then 0 else 1 + EntryCount(arr[1..])
  }

  /** Two bodies of the same kind and word count. */
  predicate SameShape(a: Body, b: Body)
  {
    match a
    case Fields(x) => b.Fields? && |x| == |b.vals|
    case Bytes(x) => b.Bytes? && |x| == |b.data| && |x| % W == 0
  }

  /** `base` with its first `i` words replaced by those of `src`. */
  function CopyWords(base: Body, src: Body, i: nat): (c: Body)
    requires SameShape(base, src)
    requires if src.Fields? then i <= |src.vals| else W * i <= |src.data|
    ensures SameShape(c, src)
  {
    match base
    case Fields(x) => Fields(src.vals[..i] + x[i..])
    case Bytes(x) => Bytes(src.data[..W * i] + x[W * i..])
  }

  /** Copying one more word is one field store, or one word of bytes. */
  lemma CopyWordsStep(base: Body, src: Body, i: nat)
    requires SameShape(base, src)
    requires if src.Fields? then i < |src.vals| else W * (i + 1) <= |src.data|
    ensures var c := CopyWords(base, src, i);
      CopyWords(base, src, i + 1) ==
        if src.Fields? then Fields(c.vals[i := src.vals[i]])
        else Bytes(c.data[..W * i] + src.data[W * i .. W * i + W] + c.data[W * i + W..])
  {
    var c := CopyWords(base, src, i);
    if src.Bytes? {
      var next := CopyWords(base, src, i + 1).data;
      var stepped := c.data[..W * i] + src.data[W * i .. W * i + W] + c.data[W * i + W..];
      assert |next| == |stepped|;
      forall k | 0 <= k < |next| ensures next[k] == stepped[k] {
      }
    } else {
      assert CopyWords(base, src, i + 1).vals == c.vals[i := src.vals[i]];
    }
  }

  /** Copying every word gives `src`. */
  lemma CopyWordsAll(base: Body, src: Body)
    requires SameShape(base, src)
    ensures src.Fields? ==> CopyWords(base, src, |src.vals|) == src
    ensures src.Bytes? ==> CopyWords(base, src, |src.data| / W) == src
  {
    if src.Fields? {
      assert src.vals[..|src.vals|] + base.vals[|src.vals|..] == src.vals;
    } else {
      assert src.data[..|src.data|] + base.data[|src.data|..] == src.data;
    }
  }

  /** Header rewrite of update_dummy: the dummy takes the tag of the value.
      When the two tags hold different body kinds the dummy's words are
      reread under the new tag; every one of them is overwritten next.
      A size-0 dummy is a shared atom and is left unchanged. */
  function Retag(dummy: Obj, val: Obj): (o: Obj)
    requires WellFormed(dummy) && WellFormed(val) && Size(dummy) == Size(val)
    ensures WellFormed(o) && Size(o) == Size(dummy)
    ensures Size(dummy) == 0 ==> o == dummy
    ensures Size(dummy) > 0 ==> o.tag == val.tag && o.body.Fields? == val.body.Fields?
    ensures dummy.body.Fields? == val.body.Fields? ==> o.body == dummy.body
  {
    if Size(dummy) == 0 then dummy
    else if dummy.body.Fields? == val.body.Fields? then Obj(val.tag, dummy.body)
    else Blank(val.tag, Size(dummy))
  }

  /** The header rewrite as the source writes it: the tag is copied even
      when the dummy is a size-0 atom. */
  function RetagAsWritten(dummy: Obj, val: Obj): (o: Obj)
    requires WellFormed(dummy) && WellFormed(val) && Size(dummy) == Size(val)
    ensures o.tag == val.tag && Size(o) == Size(dummy)
  {
    if dummy.body.Fields? == val.body.Fields? then Obj(val.tag, dummy.body)
    else Blank(val.tag, Size(dummy))
  }

  /** As written, patching the atom of one tag with the atom of another
      changes the header of the shared atom. */
  lemma AtomRetagAsWritten(t: Tag, val: Obj)
    requires WellFormed(val) && Size(val) == 0 && val.tag != t
    ensures RetagAsWritten(AtomObj(t), val) != AtomObj(t)
    ensures RetagAsWritten(AtomObj(t), val).tag == val.tag
  {
  }

  /** Corrected: no patch changes a shared atom. */
  lemma RetagKeepsAtoms(t: Tag, val: Obj)
    requires WellFormed(val) && Size(val) == 0
    ensures Retag(AtomObj(t), val) == AtomObj(t)
  {
  }
}
