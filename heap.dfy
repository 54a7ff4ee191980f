/** The allocation front end of the runtime over an explicit heap context.

    The collector's services appear as three primitives of class Heap:
    `Carve` (a fresh block of unspecified contents, from the minor heap
    or from the major heap), `StoreField` (a store into a field of a
    scannable block, which stands for both the initialising store and the
    write barrier `modify`) and `WriteBytes` (a store into the bytes of a raw
    block: the last-word and pad-byte stores of alloc_string, the `memmove`
    of copy_string and the word copies of update_dummy).  The `memset` of
    alloc's major-heap path clears a scannable block and is the direct
    assignment of a blank body. */
module Allocator {
  import opened Layout
  import opened Blocks
  import opened Flags

  /** The conversion alloc_array applies to each entry: copy_string, which
      allocates, or any function that does not touch the heap. */
  datatype Converter = CopyStringConv | Apply(f: seq<Byte> -> Value)

  /** What the conversion demands of its argument. */
  predicate Accepts(conv: Converter, s: seq<Byte>)
  {
    conv.CopyStringConv? ==> 0 in s
  }

  /** `v` is what converting `s` produced, as seen in the object map `objs`. */
  ghost predicate Produces(conv: Converter, s: seq<Byte>, v: Value, objs: map<Ref, Obj>)
  {
    match conv
    case CopyStringConv => 0 in s && v.Ptr? && v.r in objs && objs[v.r] == StringBlock(s[..Strlen(s)])
    case Apply(f) => v == f(s)
  }

  /** Every block of `before` is still present and unchanged in `after`. */
  ghost predicate Extends(before: map<Ref, Obj>, after: map<Ref, Obj>)
  {
    forall q :: q in before ==> q in after && after[q] == before[q]
  }

  class Heap {
    /** The blocks, by reference. */
    var objs: map<Ref, Obj>
    /** The next reference handed out; every reference in use is below it. */
    var next: Ref
    /** The blocks that were taken from the minor heap. */
    var young: set<Ref>

    ghost predicate Valid()
      reads this
    {
      && NumTags <= next
      && (forall q :: q in objs ==> q < next && WellFormed(objs[q]))
      && (forall t: Tag :: Atom(t) in objs && objs[Atom(t)] == AtomObj(t))
      && young <= objs.Keys
    }

    /** A heap holding only the atom table. */
    constructor ()
      ensures Valid() && young == {}
      ensures objs == map t: Tag | true :: AtomObj(t)
    {
      objs := map t: Tag | true :: AtomObj(t);
      next := NumTags;
      young := {};
    }

    /** Alloc_small (minor) or alloc_shr (major): a fresh block with the
        header stamped and its words left as the memory held them. */
    method Carve(wosize: nat, tag: Tag, minor: bool) returns (r: Ref)
      requires Valid() && wosize > 0
      modifies this
      ensures Valid()
      ensures r !in old(objs) && NumTags <= r && r in objs && objs == old(objs)[r := objs[r]]
      ensures objs[r].tag == tag && Size(objs[r]) == wosize
      ensures objs[r].body.Bytes? ==> |objs[r].body.data| == W * wosize
      ensures young == if minor then old(young) + {r} else old(young)
    {
      var body: Body;
      if tag < NoScanTag {
        var mem := new Value[wosize];
        body := Fields(mem[..]);
      } else {
        var mem := new Byte[W * wosize];
        body := Bytes(mem[..]);
      }
      r := next;
      objs := objs[r := Obj(tag, body)];
      next := next + 1;
      if minor {
        young := young + {r};
      }
    }

    /** Store `x` into field `i` of the scannable block `r`. */
    method StoreField(r: Ref, i: nat, x: Value)
      requires Valid() && r in objs && objs[r].body.Fields? && i < |objs[r].body.vals|
      modifies this
      ensures Valid() && next == old(next) && young == old(young)
      ensures objs == old(objs)[r := Obj(old(objs)[r].tag, Fields(old(objs)[r].body.vals[i := x]))]
    {
      objs := objs[r := Obj(objs[r].tag, Fields(objs[r].body.vals[i := x]))];
    }

    /** Overwrite the bytes of the raw block `r` from offset `at` with `bs`. */
    method WriteBytes(r: Ref, at: nat, bs: seq<Byte>)
      requires Valid() && r in objs && objs[r].body.Bytes? && at + |bs| <= |objs[r].body.data|
      modifies this
      ensures Valid() && next == old(next) && young == old(young)
      ensures objs == old(objs)[r := Obj(old(objs)[r].tag, Bytes(Splice(old(objs)[r].body.data, at, bs)))]
    {
      objs := objs[r := Obj(objs[r].tag, Bytes(Splice(objs[r].body.data, at, bs)))];
    }

    /** alloc: the atom for size 0; otherwise a fresh block from the minor
        heap when small enough, else from the major heap, with every field
        zero when the tag is scannable. */
    method Alloc(wosize: nat, tag: nat) returns (r: Ref)
      requires Valid() && tag < NumTags
      modifies this
      ensures Valid() && Extends(old(objs), objs)
      ensures wosize == 0 ==> r == Atom(tag) && objs == old(objs) && young == old(young)
      ensures wosize > 0 ==> r !in old(objs) && r in objs && objs == old(objs)[r := objs[r]]
      ensures wosize > 0 ==> objs[r].tag == tag && Size(objs[r]) == wosize
      ensures wosize > 0 && tag < NoScanTag ==> objs[r] == Blank(tag, wosize)
      ensures wosize > 0 ==> young == if wosize <= MaxYoungWosize then old(young) + {r} else old(young)
    {
      if wosize == 0 {
        r := Atom(tag);
        return;
      }
      if wosize <= MaxYoungWosize {
        r := Carve(wosize, tag, true);
        ghost var carved := objs;
        if tag < NoScanTag {
          ZeroFields(r);
          UpdateTwice(old(objs), r, carved[r], objs[r]);
        }
      } else {
        r := Carve(wosize, tag, false);
        if tag < NoScanTag {
          // memset of the whole block: every field becomes the zero word
          objs := objs[r := Blank(tag, wosize)];
        }
      }
      ExtendsAcross(old(objs), old(objs), r, objs[r]);
    }

    /** The initialising loop of alloc: every field of the scannable block
        `r` set to the zero word. */
    method ZeroFields(r: Ref)
      requires Valid() && r in objs && objs[r].body.Fields?
      modifies this
      ensures Valid() && next == old(next) && young == old(young)
      ensures objs == old(objs)[r := Blank(old(objs)[r].tag, |old(objs)[r].body.vals|)]
    {
      var size := |objs[r].body.vals|;
      ghost var tag := objs[r].tag;
      var i := 0;
      while i < size
        invariant 0 <= i <= size
        invariant Valid() && next == old(next) && young == old(young)
        invariant r in objs && objs == old(objs)[r := objs[r]]
        invariant objs[r].tag == tag && objs[r].body.Fields? && |objs[r].body.vals| == size
        invariant forall k :: 0 <= k < i ==> objs[r].body.vals[k] == Null
      {
        // Field (result, i) = 0
        StoreField(r, i, Null);
        i := i + 1;
      }
      assert objs[r].body.vals == Blank(tag, size).body.vals;
    }

    /** alloc_small: a fresh minor-heap block whose fields are not
        initialised. */
    method AllocSmall(wosize: nat, tag: nat) returns (r: Ref)
      requires Valid() && 0 < wosize <= MaxYoungWosize && tag < NumTags
      modifies this
      ensures Valid()
      ensures r !in old(objs) && r in objs && objs == old(objs)[r := objs[r]]
      ensures objs[r].tag == tag && Size(objs[r]) == wosize
      ensures young == old(young) + {r}
    {
      r := Carve(wosize, tag, true);
    }

    /** alloc_tuple: a zero-filled block of tag 0, or the atom of tag 0. */
    method AllocTuple(n: nat) returns (r: Ref)
      requires Valid()
      modifies this
      ensures Valid() && Extends(old(objs), objs)
      ensures n == 0 ==> r == Atom(0) && objs == old(objs) && young == old(young)
      ensures n > 0 ==> r !in old(objs) && objs == old(objs)[r := Blank(0, n)]
      ensures n > 0 ==> young == if n <= MaxYoungWosize then old(young) + {r} else old(young)
    {
      r := Alloc(n, 0);
    }

    /** alloc_string: a fresh string block sized for `len` bytes whose last
        word is zero except for the pad count in its final byte. */
    method AllocString(len: nat) returns (r: Ref)
      requires Valid()
      modifies this
      ensures Valid()
      ensures r !in old(objs) && r in objs && objs == old(objs)[r := objs[r]]
      ensures LaidOut(objs[r], len)
      ensures StringLength(objs[r]) == len && objs[r].body.data[len] == 0
      ensures young == if Wosize(len, W) <= MaxYoungWosize then old(young) + {r} else old(young)
    {
      var wosize := Wosize(len, W);
      if wosize <= MaxYoungWosize {
        r := Carve(wosize, StringTag, true);
      } else {
        r := Carve(wosize, StringTag, false);
      }
      ghost var carved := objs;
      // Field (result, wosize - 1) = 0
      WriteBytes(r, W * (wosize - 1), Zeros(W));
      ghost var zeroed := objs;
      // Byte (result, offset_index) = (char) (offset_index - len)
      var offsetIndex := W * wosize - 1;
      WriteBytes(r, offsetIndex, [(offsetIndex - len) as Byte]);
      LayOut(carved[r].body.data, len);
      LaidOutLength(objs[r], len);
      UpdateTwice(old(objs), r, carved[r], zeroed[r]);
      UpdateTwice(old(objs), r, zeroed[r], objs[r]);
    }

    /** copy_string: a string block holding the bytes of the C string `s`,
        where NULL stands for the empty string. */
    method CopyString(s: Option<seq<Byte>>) returns (r: Ref)
      requires Valid()
      requires s.Some? ==> 0 in s.value
      modifies this
      ensures Valid() && Extends(old(objs), objs)
      ensures r !in old(objs) && objs == old(objs)[r := StringBlock(CString(s))]
      ensures young == if Wosize(|CString(s)|, W) <= MaxYoungWosize then old(young) + {r} else old(young)
    {
      var len: nat := if s.None? then 0 else Strlen(s.value);
      r := AllocString(len);
      var bytes := CString(s);
      ghost var reserved := objs;
      // memmove (String_val (res), s, len)
      WriteBytes(r, 0, bytes);
      FillString(reserved[r], bytes);
      assert objs == reserved[r := StringBlock(bytes)];
      UpdateTwice(old(objs), r, reserved[r], StringBlock(bytes));
      ExtendsAcross(old(objs), old(objs), r, StringBlock(bytes));
    }

    /** alloc_array: the atom of tag 0 when `arr` starts with its NULL
        terminator; otherwise a tuple whose field `n` is the conversion of
        entry `n`, the entries converted and stored in index order. */
    method AllocArray(conv: Converter, arr: seq<Option<seq<Byte>>>) returns (r: Ref)
      requires Valid()
      requires None in arr
      requires forall k :: 0 <= k < EntryCount(arr) ==> Accepts(conv, arr[k].value)
      modifies this
      ensures Valid() && Extends(old(objs), objs)
      ensures EntryCount(arr) == 0 ==> r == Atom(0) && objs == old(objs) && young == old(young)
      ensures EntryCount(arr) > 0 ==>
        && r !in old(objs) && r in objs && objs[r].tag == 0 && objs[r].body.Fields?
        && |objs[r].body.vals| == EntryCount(arr)
        && forall k :: 0 <= k < EntryCount(arr) ==> Produces(conv, arr[k].value, objs[r].body.vals[k], objs)
      // copy_string allocates one fresh block per entry
      ensures EntryCount(arr) > 0 && conv.CopyStringConv? ==>
        && (forall k :: 0 <= k < EntryCount(arr) ==>
              objs[r].body.vals[k].Ptr? && objs[r].body.vals[k].r !in old(objs))
        && (forall j, k :: 0 <= j < k < EntryCount(arr) ==> objs[r].body.vals[j] != objs[r].body.vals[k])
      // only the new blocks can be young, the tuple exactly when it is small
      ensures old(young) <= young <= old(young) + (objs.Keys - old(objs).Keys)
      ensures EntryCount(arr) > 0 ==> (r in young <==> EntryCount(arr) <= MaxYoungWosize)
    {
      var nbr := 0;
      while arr[nbr] != None
        invariant 0 <= nbr <= EntryCount(arr)
        decreases EntryCount(arr) - nbr
      {
        nbr := nbr + 1;
      }
      if nbr == 0 {
        r := Atom(0);
        return;
      }
      r := Alloc(nbr, 0);
      var n := 0;
      while n < nbr
        invariant 0 <= n <= nbr
        invariant Valid() && Extends(old(objs), objs) && r !in old(objs)
        invariant r in objs && objs[r].tag == 0 && objs[r].body.Fields? && |objs[r].body.vals| == nbr
        invariant forall k :: 0 <= k < n ==> Produces(conv, arr[k].value, objs[r].body.vals[k], objs)
        invariant conv.CopyStringConv? ==>
          && (forall k :: 0 <= k < n ==> objs[r].body.vals[k].Ptr? && objs[r].body.vals[k].r !in old(objs))
          && (forall j, k :: 0 <= j < k < n ==> objs[r].body.vals[j] != objs[r].body.vals[k])
        invariant old(young) <= young <= old(young) + (objs.Keys - old(objs).Keys)
        invariant r in young <==> nbr <= MaxYoungWosize
      {
        StoreEntry(conv, arr, r, n, old(objs));
        n := n + 1;
      }
    }

    /** One round of alloc_array's loop: entry `n` converted, then stored
        into field `n` of the tuple `r`; the entries stored before keep
        their meaning. */
    method StoreEntry(conv: Converter, arr: seq<Option<seq<Byte>>>, r: Ref, n: nat, ghost base: map<Ref, Obj>)
      requires Valid() && r !in base && Extends(base, objs)
      requires None in arr && n < EntryCount(arr) && Accepts(conv, arr[n].value)
      requires r in objs && objs[r].tag == 0 && objs[r].body.Fields? && n < |objs[r].body.vals|
      requires forall k :: 0 <= k < n ==> Produces(conv, arr[k].value, objs[r].body.vals[k], objs)
      requires conv.CopyStringConv? ==>
        && (forall k :: 0 <= k < n ==> objs[r].body.vals[k].Ptr? && objs[r].body.vals[k].r !in base)
        && (forall j, k :: 0 <= j < k < n ==> objs[r].body.vals[j] != objs[r].body.vals[k])
      modifies this
      ensures Valid() && Extends(base, objs)
      ensures r in objs && objs[r].tag == 0 && objs[r].body.Fields?
      ensures |objs[r].body.vals| == |old(objs)[r].body.vals|
      ensures forall k :: 0 <= k <= n ==> Produces(conv, arr[k].value, objs[r].body.vals[k], objs)
      ensures conv.CopyStringConv? ==>
        && (forall k :: 0 <= k <= n ==> objs[r].body.vals[k].Ptr? && objs[r].body.vals[k].r !in base)
        && (forall j, k :: 0 <= j < k <= n ==> objs[r].body.vals[j] != objs[r].body.vals[k])
      ensures old(young) <= young <= old(young) + (objs.Keys - old(objs).Keys)
    {
      ghost var before := objs;
      var v := Convert(conv, arr[n].value);
      ghost var converted := objs;
      assert converted[r] == before[r];
      forall k | 0 <= k < n
        ensures Produces(conv, arr[k].value, converted[r].body.vals[k], converted)
      {
        ProducesFrame(conv, arr[k].value, converted[r].body.vals[k], before, converted);
      }
      // modify (&Field (result, n), v)
      StoreField(r, n, v);
      forall k | 0 <= k <= n
        ensures Produces(conv, arr[k].value, objs[r].body.vals[k], objs)
      {
        ProducesFrame(conv, arr[k].value, objs[r].body.vals[k], converted, objs);
      }
      ExtendsTrans(base, before, converted);
      ExtendsAcross(base, converted, r, objs[r]);
    }

    /** funct applied to one entry. */
    method Convert(conv: Converter, s: seq<Byte>) returns (v: Value)
      requires Valid() && Accepts(conv, s)
      modifies this
      ensures Valid() && Extends(old(objs), objs)
      ensures Produces(conv, s, v, objs)
      ensures conv.CopyStringConv? ==> v.Ptr? && v.r !in old(objs)
      ensures old(young) <= young <= old(young) + (objs.Keys - old(objs).Keys)
    {
      match conv
      case CopyStringConv =>
        var r := CopyString(Some(s));
        v := Ptr(r);
      case Apply(f) =>
        v := f(s);
    }

    /** copy_string_array: the strings of a NULL-terminated array of C
        strings, copied into a tuple (the atom of tag 0 when it is empty). */
    method CopyStringArray(arr: seq<Option<seq<Byte>>>) returns (r: Ref)
      requires Valid()
      requires None in arr
      requires forall k :: 0 <= k < EntryCount(arr) ==> 0 in arr[k].value
      modifies this
      ensures Valid() && Extends(old(objs), objs)
      ensures EntryCount(arr) == 0 ==> r == Atom(0) && objs == old(objs) && young == old(young)
      ensures EntryCount(arr) > 0 ==>
        && r !in old(objs) && r in objs && objs[r].tag == 0 && objs[r].body.Fields?
        && |objs[r].body.vals| == EntryCount(arr)
        && forall k :: 0 <= k < EntryCount(arr) ==>
             var v := objs[r].body.vals[k];
             v.Ptr? && v.r in objs && v.r !in old(objs) && objs[v.r] == StringBlock(CString(arr[k]))
      // every entry has a copy of its own
      ensures EntryCount(arr) > 0 ==>
        forall j, k :: 0 <= j < k < EntryCount(arr) ==> objs[r].body.vals[j] != objs[r].body.vals[k]
      ensures old(young) <= young <= old(young) + (objs.Keys - old(objs).Keys)
      ensures EntryCount(arr) > 0 ==> (r in young <==> EntryCount(arr) <= MaxYoungWosize)
    {
      r := AllocArray(CopyStringConv, arr);
    }

    /** `xs` are the integers held in the cons cells of the list `v`, which
        ends in the integer 0. */
    ghost predicate IsList(v: Value, xs: seq<int>)
      reads this
      decreases |xs|
    {
      if xs == [] then v == Int(0)
      else
        && v.Ptr? && v.r in objs && objs[v.r].body.Fields?
        && |objs[v.r].body.vals| >= 2
        && objs[v.r].body.vals[0] == Int(xs[0])
        && IsList(objs[v.r].body.vals[1], xs[1..])
    }

    /** convert_flag_list: OR of the flags the list elements select. */
    method ConvertFlagList(list: Value, flags: seq<bv32>, ghost xs: seq<int>) returns (res: bv32)
      requires IsList(list, xs) && InRange(flags, xs)
      ensures res == FlagsOr(flags, xs, |xs|)
    {
      res := 0;
      var l := list;
      ghost var k := 0;
      while l != Int(0)
        invariant 0 <= k <= |xs| && IsList(l, xs[k..])
        invariant res == FlagsOr(flags, xs, k)
        decreases |xs| - k
      {
        var cell := objs[l.r].body.vals;
        res := res | flags[cell[0].n];
        l := cell[1];
        assert xs[k + 1..] == xs[k..][1..];
        k := k + 1;
      }
    }

    /** alloc_dummy: a zero-filled placeholder of tag 0, or the atom of tag
        0 for size 0. */
    method AllocDummy(wosize: nat) returns (r: Ref)
      requires Valid()
      modifies this
      ensures Valid() && Extends(old(objs), objs)
      ensures wosize == 0 ==> r == Atom(0) && objs == old(objs) && young == old(young)
      ensures wosize > 0 ==> r !in old(objs) && objs == old(objs)[r := Blank(0, wosize)]
      ensures wosize > 0 ==> young == if wosize <= MaxYoungWosize then old(young) + {r} else old(young)
    {
      if wosize == 0 {
        return Atom(0);
      }
      r := Alloc(wosize, 0);
    }

    /** One round of update_dummy's loop: word `i` of `v` stored into `d`,
        whose first `i` words were already copied from `src`. */
    method CopyWord(d: Ref, v: Ref, i: nat, ghost tag: Tag, ghost base: Body, ghost src: Body,
                    ghost start: map<Ref, Obj>)
      requires Valid() && SameShape(base, src) && WellFormed(Obj(tag, base))
      requires if src.Fields? then i < |src.vals| else W * (i + 1) <= |src.data|
      requires objs == start[d := Obj(tag, CopyWords(base, src, i))]
      requires v in objs && (if v == d then base == src else objs[v].body == src)
      modifies this
      ensures Valid() && next == old(next) && young == old(young)
      ensures objs == start[d := Obj(tag, CopyWords(base, src, i + 1))]
    {
      CopyWordsStep(base, src, i);
      ghost var copied := CopyWords(base, src, i);
      if objs[v].body.Fields? {
        var word := objs[v].body.vals[i];
        assert word == src.vals[i] by {
          if v == d { assert copied.vals[i] == base.vals[i]; }
        }
        StoreField(d, i, word);
        assert objs[d] == Obj(tag, Fields(copied.vals[i := src.vals[i]]));
      } else {
        var word := objs[v].body.data[W * i .. W * i + W];
        assert word == src.data[W * i .. W * i + W] by {
          if v == d { assert copied.data[W * i .. W * i + W] == base.data[W * i .. W * i + W]; }
        }
        WriteBytes(d, W * i, word);
        assert objs[d] == Obj(tag, Bytes(copied.data[..W * i] + word + copied.data[W * i + W..]));
      }
      UpdateTwice(start, d, Obj(tag, CopyWords(base, src, i)), Obj(tag, CopyWords(base, src, i + 1)));
    }

    /** update_dummy: the placeholder `d` takes the tag and every word of
        the value `v` of the same size, keeping its reference. */
    method UpdateDummy(d: Ref, v: Ref) returns (unit: Value)
      requires Valid() && d in objs && v in objs
      requires Size(objs[d]) == Size(objs[v])
      modifies this
      ensures Valid() && unit == Int(0)
      ensures next == old(next) && young == old(young)
      ensures d in objs && objs == old(objs)[d := objs[d]]
      ensures Size(old(objs)[d]) > 0 ==> objs[d] == old(objs)[v]
      ensures Size(old(objs)[d]) == 0 ==> objs == old(objs)
    {
      var src := objs[v];
      var size := Size(src);
      // Tag_val (dummy) = Tag_val (newval)
      objs := objs[d := Retag(objs[d], src)];
      if size == 0 {
        // both blocks are shared atoms and there is no word to copy
        return Int(0);
      }
      ghost var tag := objs[d].tag;
      ghost var base := objs[d].body;
      assert SameShape(base, src.body);
      assert v == d ==> base == src.body;
      assert CopyWords(base, src.body, 0) == base by {
        assert base.Fields? ==> src.body.vals[..0] + base.vals[0..] == base.vals;
        assert base.Bytes? ==> src.body.data[..0] + base.data[0..] == base.data;
      }
      var i := 0;
      while i < size
        invariant 0 <= i <= size
        invariant Valid() && next == old(next) && young == old(young)
        invariant d in objs && objs == old(objs)[d := Obj(tag, CopyWords(base, src.body, i))]
      {
        // modify (&Field (dummy, i), Field (newval, i))
        CopyWord(d, v, i, tag, base, src.body, old(objs));
        i := i + 1;
      }
      CopyWordsAll(base, src.body);
      unit := Int(0);
    }
  }

  /** A conversion stays valid in any later heap that keeps every string
      block: later conversions only add blocks, and the stores into the
      result tuple touch a block of tag 0. */
  lemma ProducesFrame(conv: Converter, s: seq<Byte>, v: Value, before: map<Ref, Obj>, after: map<Ref, Obj>)
    requires Produces(conv, s, v, before)
    requires forall q :: q in before && before[q].tag == StringTag ==> q in after && after[q] == before[q]
    ensures Produces(conv, s, v, after)
  {
  }

  lemma ExtendsTrans(a: map<Ref, Obj>, b: map<Ref, Obj>, c: map<Ref, Obj>)
    requires Extends(a, b) && Extends(b, c)
    ensures Extends(a, c)
  {
  }

  /** Storing under a reference that `a` does not hold keeps every block of `a`. */
  lemma ExtendsAcross(a: map<Ref, Obj>, m: map<Ref, Obj>, r: Ref, o: Obj)
    requires Extends(a, m) && r !in a
    ensures Extends(a, m[r := o])
  {
  }

  lemma UpdateTwice<K, V>(m: map<K, V>, k: K, a: V, b: V)
    ensures m[k := a][k := b] == m[k := b]
  {
  }
}
