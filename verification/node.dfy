/** The packed B-tree node: a 56-byte header, n key locations, n value locations, then keys and values.
    Offsets count from the start of the node. */
module Nodes {
  import opened Bits
  import opened Bytes
  import opened Structures

  datatype Entry = Entry(key: seq<byte>, value: seq<byte>)

  // ---------- Key order ----------

  /** The sign of the first difference of two memory blocks of n bytes. */
  function CompareMemory(a: seq<byte>, b: seq<byte>, n: nat): int
    requires n <= |a| && n <= |b|
    decreases n
  {
    if n == 0 then 0
    else if a[0] != b[0] then a[0] - b[0]
    else CompareMemory(a[1..], b[1..], n - 1)
  }

  function CompareKeys(a: seq<byte>, b: seq<byte>): int
  {
    var shorter := if |a| < |b| then |a| else |b|;
    var order := CompareMemory(a, b, shorter);
    if order != 0 then order
    else if |a| < |b| then -1
    else if |a| > |b| then 1
    else 0
  }

  /** The order of a dictionary, with no reference to how it is computed: k bytes in common, and then
      either a ends or its next byte is smaller. */
  ghost predicate SplitsAt(a: seq<byte>, b: seq<byte>, k: nat)
  {
    && k <= |a| && k < |b|
    && a[..k] == b[..k]
    && (k == |a| || a[k] < b[k])
  }

  ghost predicate Before(a: seq<byte>, b: seq<byte>)
  {
    exists k: nat :: SplitsAt(a, b, k)
  }

  /** The place where two unequal byte strings part. */
  lemma {:induction false} FirstDifference(a: seq<byte>, b: seq<byte>) returns (k: nat)
    requires a != b
    ensures k <= |a| && k <= |b| && a[..k] == b[..k]
    ensures k < |a| && k < |b| ==> a[k] != b[k]
    ensures k < |a| || k < |b|
  {
    if a == [] || b == [] || a[0] != b[0] {
      k := 0;
    } else {
      assert a == [a[0]] + a[1..] && b == [b[0]] + b[1..];
      k := FirstDifference(a[1..], b[1..]);
      k := k + 1;
      assert a[..k] == [a[0]] + a[1..][..k - 1] && b[..k] == [b[0]] + b[1..][..k - 1];
    }
  }

  lemma {:induction false} CompareMemoryAt(a: seq<byte>, b: seq<byte>, n: nat, k: nat)
    requires k <= n && n <= |a| && n <= |b| && a[..k] == b[..k]
    ensures CompareMemory(a, b, n) == if k == n then 0
                                      else if a[k] != b[k] then a[k] - b[k]
                                      else CompareMemory(a[k..], b[k..], n - k)
  {
    if k == 0 {
      assert a[0..] == a && b[0..] == b;
    } else {
      assert a[0] == a[..k][0] == b[..k][0] == b[0];
      assert a[1..][..k - 1] == a[..k][1..] == b[..k][1..] == b[1..][..k - 1];
      CompareMemoryAt(a[1..], b[1..], n - 1, k - 1);
      assert a[1..][k - 1..] == a[k..] && b[1..][k - 1..] == b[k..];
    }
  }

  /** Once two strings part at k, that place decides their comparison. */
  lemma CompareAt(a: seq<byte>, b: seq<byte>, k: nat)
    requires k <= |a| && k <= |b| && a[..k] == b[..k]
    requires k < |a| && k < |b| ==> a[k] != b[k]
    requires k < |a| || k < |b|
    ensures CompareKeys(a, b) < 0 <==> SplitsAt(a, b, k)
    ensures CompareKeys(a, b) > 0 <==> SplitsAt(b, a, k)
  {
    var shorter := if |a| < |b| then |a| else |b|;
    CompareMemoryAt(a, b, shorter, k);
  }

  lemma SplitPlaceUnique(a: seq<byte>, b: seq<byte>, j: nat, k: nat)
    requires SplitsAt(a, b, j)
    requires k <= |a| && k <= |b| && a[..k] == b[..k]
    requires k < |a| && k < |b| ==> a[k] != b[k]
    requires k < |a| || k < |b|
    ensures j == k
  {
    assert forall i | 0 <= i < k :: a[i] == a[..k][i] == b[..k][i] == b[i];
    assert forall i | 0 <= i < j :: a[i] == a[..j][i] == b[..j][i] == b[i];
  }

  /** The comparison is zero on identical strings only, and negative exactly on dictionary order. */
  lemma CompareMeaning(a: seq<byte>, b: seq<byte>)
    ensures CompareKeys(a, b) == 0 <==> a == b
    ensures CompareKeys(a, b) < 0 <==> Before(a, b)
    ensures CompareKeys(a, b) > 0 <==> Before(b, a)
  {
    if a == b {
      CompareMemoryAt(a, b, |a|, |a|);
      assert forall j: nat :: !SplitsAt(a, b, j);
    } else {
      var k := FirstDifference(a, b);
      CompareAt(a, b, k);
      forall j: nat ensures SplitsAt(a, b, j) ==> j == k {
        if SplitsAt(a, b, j) { SplitPlaceUnique(a, b, j, k); }
      }
      forall j: nat ensures SplitsAt(b, a, j) ==> j == k {
        if SplitsAt(b, a, j) { SplitPlaceUnique(b, a, j, k); }
      }
    }
  }

  lemma CompareZero(a: seq<byte>, b: seq<byte>)
    ensures CompareKeys(a, b) == 0 <==> a == b
  {
    CompareMeaning(a, b);
  }

  lemma BeforeTransitive(a: seq<byte>, b: seq<byte>, c: seq<byte>)
    requires Before(a, b) && Before(b, c)
    ensures Before(a, c)
  {
    var i: nat :| SplitsAt(a, b, i);
    var j: nat :| SplitsAt(b, c, j);
    var k := if i < j then i else j;
    assert a[..k] == a[..i][..k] == b[..i][..k] == b[..k] == b[..j][..k] == c[..j][..k] == c[..k];
    if i < j {
      assert b[..j][i] == c[..j][i];
    }
    assert SplitsAt(a, c, k);
  }

  /** compareKeys is a total order on byte strings of any length; a proper prefix comes first. */
  lemma CompareTotalOrder(a: seq<byte>, b: seq<byte>, c: seq<byte>)
    ensures CompareKeys(a, b) == 0 <==> a == b
    ensures CompareKeys(a, b) < 0 <==> CompareKeys(b, a) > 0
    ensures CompareKeys(a, b) <= 0 && CompareKeys(b, c) <= 0 ==> CompareKeys(a, c) <= 0
    ensures a < b ==> CompareKeys(a, b) < 0
  {
    CompareMeaning(a, b);
    CompareMeaning(b, a);
    CompareMeaning(b, c);
    CompareMeaning(a, c);
    if CompareKeys(a, b) < 0 && CompareKeys(b, c) < 0 {
      BeforeTransitive(a, b, c);
    }
    if a < b {
      assert SplitsAt(a, b, |a|);
    }
  }

  // ---------- Node layout ----------

  const NODE_HEADER := 56
  const TYPE_AT := 24
  const COUNT_AT := 36
  const LOCATION_SIZE := 4

  function ObjectType(node: seq<byte>): nat
    requires |node| >= NODE_HEADER
  {
    And(U32At(node, TYPE_AT), 0xffff)
  }

  predicate IsTreeNode(node: seq<byte>)
    requires |node| >= NODE_HEADER
  {
    ObjectType(node) == OBJECT_TYPE_BTREE_NODE || ObjectType(node) == OBJECT_TYPE_BTREE
  }

  function KeyCount(node: seq<byte>): u32
    requires |node| >= NODE_HEADER
  {
    U32At(node, COUNT_AT)
  }

  /** The byte string that location number i of the table of contents names. */
  predicate LocationFits(node: seq<byte>, i: nat)
  {
    var at := NODE_HEADER + LOCATION_SIZE * i;
    at + LOCATION_SIZE <= |node| && U16At(node, at) + U16At(node, at + 2) <= |node|
  }

  function Located(node: seq<byte>, i: nat): seq<byte>
    requires LocationFits(node, i)
  {
    var at := NODE_HEADER + LOCATION_SIZE * i;
    node[U16At(node, at)..U16At(node, at) + U16At(node, at + 2)]
  }

  /** The locations of n keys and then of n values stay inside the node. */
  predicate TableFits(node: seq<byte>, n: nat)
  {
    forall i: nat | i < 2 * n :: LocationFits(node, i)
  }

  lemma TypeWord(node: seq<byte>)
    requires |node| >= NODE_HEADER
    ensures ObjectType(node) == U16At(node, 24)
  {
    hide And, FromLittleEndian;
    var low, high := U16At(node, 24), U16At(node, 26);
    TwoHalves(node[24..28]);
    assert node[24..28][..2] == node[24..26] && node[24..28][2..] == node[26..28];
    LowHalf(low, high);
  }

  /** A block is searched as a tree node exactly if the type in its bytes 24 and 25 is 2 or 3; a block of any other
      type has no entries, whatever it holds, so every search of it finds nothing. */
  lemma OtherBlocksEmpty(node: seq<byte>)
    requires WellFormed(node)
    ensures IsTreeNode(node) <==> U16At(node, 24) == 2 || U16At(node, 24) == 3
    ensures U16At(node, 24) != 2 && U16At(node, 24) != 3 ==>
              Entries(node) == [] && forall key :: FindFirst(Entries(node), key) == None
  {
    TypeWord(node);
  }

  /** Every offset of a tree node stays inside it. */
  predicate WellFormed(node: seq<byte>)
  {
    |node| >= NODE_HEADER && (IsTreeNode(node) ==> TableFits(node, KeyCount(node)))
  }

  /** Entry i of a table of n keys and n values. */
  function EntryAt(node: seq<byte>, n: nat, i: nat): Entry
    requires TableFits(node, n) && i < n
  {
    Entry(Located(node, i), Located(node, n + i))
  }

  function FirstEntries(node: seq<byte>, n: nat, k: nat): (es: seq<Entry>)
    requires TableFits(node, n) && k <= n
    ensures |es| == k && forall i | 0 <= i < k :: es[i] == EntryAt(node, n, i)
  {
    if k == 0 then [] else FirstEntries(node, n, k - 1) + [EntryAt(node, n, k - 1)]
  }

  /** The association list that a node packs; a block that is not a tree node packs nothing. */
  function Entries(node: seq<byte>): (es: seq<Entry>)
    requires WellFormed(node)
  {
    if IsTreeNode(node) then FirstEntries(node, KeyCount(node), KeyCount(node)) else []
  }

  /** The entries of any tree node as numbers: the word at byte 36 counts them; from byte 56 on stand 4-byte
      locations, first of all keys and then of all values, each an offset into the node and a length. */
  lemma EntriesAt(node: seq<byte>, i: nat)
    requires WellFormed(node) && IsTreeNode(node)
    ensures |Entries(node)| == U32At(node, 36)
    ensures i < |Entries(node)| ==>
              var k, v := 56 + 4 * i, 56 + 4 * (U32At(node, 36) + i);
              && v + 4 <= |node| && U16At(node, k) + U16At(node, k + 2) <= |node|
              && U16At(node, v) + U16At(node, v + 2) <= |node|
              && Entries(node)[i].key == node[U16At(node, k)..U16At(node, k) + U16At(node, k + 2)]
              && Entries(node)[i].value == node[U16At(node, v)..U16At(node, v) + U16At(node, v + 2)]
  {
    hide U16At, U32At, IsTreeNode, LocationFits, Located;
    if i < KeyCount(node) {
      assert LocationFits(node, i) && LocationFits(node, KeyCount(node) + i);
      LocatedNumbers(node, i);
      LocatedNumbers(node, KeyCount(node) + i);
    }
  }

  lemma LocatedNumbers(node: seq<byte>, i: nat)
    requires LocationFits(node, i)
    ensures 56 + 4 * i + 4 <= |node| && U16At(node, 56 + 4 * i) + U16At(node, 58 + 4 * i) <= |node|
    ensures Located(node, i) == node[U16At(node, 56 + 4 * i)..U16At(node, 56 + 4 * i) + U16At(node, 58 + 4 * i)]
  {
    hide FromLittleEndian;
  }

  function FindFirst(es: seq<Entry>, key: seq<byte>): Option<seq<byte>>
  {
    if es == [] then None
    else if es[0].key == key then Some(es[0].value)
    else FindFirst(es[1..], key)
  }

  lemma {:induction false} FindFirstAt(es: seq<Entry>, key: seq<byte>, i: nat)
    requires i <= |es|
    requires forall j | 0 <= j < i :: es[j].key != key
    requires i < |es| ==> es[i].key == key
    ensures FindFirst(es, key) == if i < |es| then Some(es[i].value) else None
  {
    if i > 0 {
      FindFirstAt(es[1..], key, i - 1);
    }
  }

  /** Lookup finds a key exactly when some entry has it, and then the value of the smallest such index. */
  lemma {:induction false} FindFirstMeaning(es: seq<Entry>, key: seq<byte>)
    ensures FindFirst(es, key).Some? <==> exists i :: 0 <= i < |es| && es[i].key == key
    ensures forall i | 0 <= i < |es| && es[i].key == key && (forall j | 0 <= j < i :: es[j].key != key) ::
              FindFirst(es, key) == Some(es[i].value)
  {
    var i := 0;
    while i < |es| && es[i].key != key
      invariant 0 <= i <= |es|
      invariant forall j | 0 <= j < i :: es[j].key != key
    {
      i := i + 1;
    }
    FindFirstAt(es, key, i);
    forall k | 0 <= k < |es| && es[k].key == key && (forall j | 0 <= j < k :: es[j].key != key)
      ensures FindFirst(es, key) == Some(es[k].value)
    {
      FindFirstAt(es, key, k);
    }
  }

  // ---------- Encoding an association list as a node ----------

  function Flat(cs: seq<seq<byte>>): seq<byte>
  {
    if cs == [] then [] else cs[0] + Flat(cs[1..])
  }

  /** Byte strings placed one after the other, starting at an offset that 16 bits can name. */
  predicate Placeable(cs: seq<seq<byte>>, base: nat)
  {
    base + |Flat(cs)| < U16_LIMIT
  }

  lemma PlaceableTail(cs: seq<seq<byte>>, base: nat)
    requires cs != [] && Placeable(cs, base)
    ensures Placeable(cs[1..], base + |cs[0]|) && |cs[0]| < U16_LIMIT && base < U16_LIMIT
  {
  }

  /** The table of contents for strings placed from an offset on. */
  function Locations(cs: seq<seq<byte>>, base: nat): (s: seq<byte>)
    requires Placeable(cs, base)
    ensures |s| == LOCATION_SIZE * |cs|
    decreases cs
  {
    if cs == [] then []
    else
      PlaceableTail(cs, base);
      U16(base) + U16(|cs[0]|) + Locations(cs[1..], base + |cs[0]|)
  }

  /** Location i names the place of string i, and string i lies there. */
  ghost predicate LocationHolds(table: seq<byte>, area: seq<byte>, base: nat, i: nat, off: nat, c: seq<byte>)
  {
    && Holds(area, off, c)
    && base + off < U16_LIMIT && |c| < U16_LIMIT
    && Holds(table, LOCATION_SIZE * i, U16(base + off))
    && Holds(table, LOCATION_SIZE * i + 2, U16(|c|))
  }

  lemma LocationHoldsNext(head: seq<byte>, table: seq<byte>, c0: seq<byte>, area: seq<byte>,
                          base: nat, i: nat, off: nat, c: seq<byte>)
    requires |head| == LOCATION_SIZE && LocationHolds(table, area, base + |c0|, i, off, c)
    ensures LocationHolds(head + table, c0 + area, base, i + 1, |c0| + off, c)
  {
    HoldsPrepend(head, table, LOCATION_SIZE * i, U16(base + |c0| + off));
    HoldsPrepend(head, table, LOCATION_SIZE * i + 2, U16(|c|));
    HoldsPrepend(c0, area, off, c);
  }

  lemma LocationHoldsFirst(table: seq<byte>, c: seq<byte>, area: seq<byte>, base: nat)
    requires base < U16_LIMIT && |c| < U16_LIMIT
    ensures LocationHolds(U16(base) + U16(|c|) + table, c + area, base, 0, 0, c)
  {
    HoldsFrontPair(U16(base), U16(|c|), table);
    HoldsAppend(c, area, 0, c);
  }

  lemma {:induction false} LocationAt(cs: seq<seq<byte>>, base: nat, i: nat)
    requires Placeable(cs, base) && i < |cs|
    ensures LocationHolds(Locations(cs, base), Flat(cs), base, i, |Flat(cs[..i])|, cs[i])
    decreases cs
  {
    hide LocationHolds, U16;
    PlaceableTail(cs, base);
    var rest := Locations(cs[1..], base + |cs[0]|);
    if i == 0 {
      LocationHoldsFirst(rest, cs[0], Flat(cs[1..]), base);
    } else {
      LocationAt(cs[1..], base + |cs[0]|, i - 1);
      assert cs[..i][1..] == cs[1..][..i - 1];
      LocationHoldsNext(U16(base) + U16(|cs[0]|), rest, cs[0], Flat(cs[1..]), base, i - 1,
                        |Flat(cs[1..][..i - 1])|, cs[i]);
    }
  }

  /** What the encoder writes around the entries: header words that a search does not read, the high half
      of the type word, and whatever fills the block behind the last value. */
  datatype NodeFrame = NodeFrame(lead: seq<byte>, leaf: bool, flags: u16, middle: seq<byte>, spaces: seq<byte>,
                                 filler: seq<byte>)

  predicate ValidFrame(f: NodeFrame)
  {
    |f.lead| == 24 && |f.middle| == 8 && |f.spaces| == 16
  }

  function KeysOf(es: seq<Entry>): (cs: seq<seq<byte>>)
  {
    seq(|es|, i requires 0 <= i < |es| => es[i].key)
  }

  function ValuesOf(es: seq<Entry>): (cs: seq<seq<byte>>)
  {
    seq(|es|, i requires 0 <= i < |es| => es[i].value)
  }

  /** Keys and values that fit behind the table of contents within the reach of 16-bit offsets. */
  predicate Packable(es: seq<Entry>)
  {
    KeyBase(|es|) + |Flat(KeysOf(es))| + |Flat(ValuesOf(es))| < U16_LIMIT
  }

  function KeyBase(n: nat): nat
  {
    NODE_HEADER + 2 * LOCATION_SIZE * n
  }

  function NodeHeader(f: NodeFrame, n: u32): (s: seq<byte>)
    requires ValidFrame(f)
    ensures |s| == NODE_HEADER
  {
    f.lead + U32((if f.leaf then OBJECT_TYPE_BTREE_NODE else OBJECT_TYPE_BTREE) + f.flags * U16_LIMIT)
    + f.middle + U32(n) + f.spaces
  }

  function EncodeNode(f: NodeFrame, es: seq<Entry>): (s: seq<byte>)
    requires ValidFrame(f) && Packable(es)
    ensures |s| >= NODE_HEADER
  {
    var keys, values := KeysOf(es), ValuesOf(es);
    var valueBase := KeyBase(|es|) + |Flat(keys)|;
    NodeHeader(f, |es|) + Locations(keys, KeyBase(|es|)) + Locations(values, valueBase)
    + Flat(keys) + Flat(values) + f.filler
  }

  lemma NodeHeaderReads(f: NodeFrame, n: u32, body: seq<byte>)
    requires ValidFrame(f)
    ensures var s := NodeHeader(f, n) + body; IsTreeNode(s) && KeyCount(s) == n
  {
    var kind := if f.leaf then OBJECT_TYPE_BTREE_NODE else OBJECT_TYPE_BTREE;
    var word := kind + f.flags * U16_LIMIT;
    var a := f.lead + U32(word);
    var b := a + f.middle;
    var c := b + U32(n);
    HoldsEnd(f.lead, U32(word));
    HoldsAppend(a, f.middle, TYPE_AT, U32(word));
    HoldsAppend(b, U32(n), TYPE_AT, U32(word));
    HoldsEnd(b, U32(n));
    HoldsAppend(c, f.spaces, TYPE_AT, U32(word));
    HoldsAppend(c, f.spaces, COUNT_AT, U32(n));
    var h := NodeHeader(f, n);
    HoldsAppend(h, body, TYPE_AT, U32(word));
    HoldsAppend(h, body, COUNT_AT, U32(n));
    HoldsU32(h + body, TYPE_AT, word);
    HoldsU32(h + body, COUNT_AT, n);
    LowHalf(kind, f.flags);
  }

  lemma Sixteen()
    ensures Pow2(16) == U16_LIMIT
  {
    assert Pow2(4) == 16 && Pow2(12) == 4096;
    Pow2Sum(12, 4);
  }

  lemma LowHalf(low: u16, high: u16)
    ensures And(low + high * U16_LIMIT, 0xffff) == low
  {
    hide And;
    Sixteen();
    AndLowBits(low + high * U16_LIMIT, 16);
  }

  /** A location and its string survive when the table and the strings are set into a larger node. */
  lemma LocatedInside(node: seq<byte>, cs: seq<seq<byte>>, base: nat, first: nat, i: nat)
    requires Placeable(cs, base) && i < |cs|
    requires Holds(node, NODE_HEADER + LOCATION_SIZE * first, Locations(cs, base)) && Holds(node, base, Flat(cs))
    ensures LocationFits(node, first + i) && Located(node, first + i) == cs[i]
  {
    LocationAt(cs, base, i);
    var off := |Flat(cs[..i])|;
    var table := NODE_HEADER + LOCATION_SIZE * first;
    HoldsInside(node, table, Locations(cs, base), LOCATION_SIZE * i, U16(base + off));
    HoldsInside(node, table, Locations(cs, base), LOCATION_SIZE * i + 2, U16(|cs[i]|));
    HoldsInside(node, base, Flat(cs), off, cs[i]);
    HoldsU16(node, table + LOCATION_SIZE * i, base + off);
    HoldsU16(node, table + LOCATION_SIZE * i + 2, |cs[i]|);
  }

  /** The node holds a table of contents for two lists of strings, and the strings. */
  ghost predicate Packs(node: seq<byte>, keys: seq<seq<byte>>, values: seq<seq<byte>>, keyBase: nat, valueBase: nat)
  {
    && Placeable(keys, keyBase) && Placeable(values, valueBase)
    && Holds(node, NODE_HEADER, Locations(keys, keyBase))
    && Holds(node, NODE_HEADER + LOCATION_SIZE * |keys|, Locations(values, valueBase))
    && Holds(node, keyBase, Flat(keys))
    && Holds(node, valueBase, Flat(values))
  }

  lemma PacksEntry(node: seq<byte>, keys: seq<seq<byte>>, values: seq<seq<byte>>, keyBase: nat, valueBase: nat, i: nat)
    requires Packs(node, keys, values, keyBase, valueBase)
    ensures i < |keys| ==> LocationFits(node, i) && Located(node, i) == keys[i]
    ensures i < |values| ==> LocationFits(node, |keys| + i) && Located(node, |keys| + i) == values[i]
  {
    if i < |keys| {
      LocatedInside(node, keys, keyBase, 0, i);
    }
    if i < |values| {
      LocatedInside(node, values, valueBase, |keys|, i);
    }
  }

  lemma EncodedPacks(f: NodeFrame, es: seq<Entry>)
    requires ValidFrame(f) && Packable(es)
    ensures Packs(EncodeNode(f, es), KeysOf(es), ValuesOf(es), KeyBase(|es|), KeyBase(|es|) + |Flat(KeysOf(es))|)
  {
    var kb := KeyBase(|es|);
    var vb := kb + |Flat(KeysOf(es))|;
    PiecesPack(EncodeNode(f, es), NodeHeader(f, |es|), KeysOf(es), ValuesOf(es), kb, vb, f.filler);
  }

  lemma PiecesPack(node: seq<byte>, h: seq<byte>, keys: seq<seq<byte>>, values: seq<seq<byte>>,
                   keyBase: nat, valueBase: nat, filler: seq<byte>)
    requires Placeable(keys, keyBase) && Placeable(values, valueBase)
    requires node == h + Locations(keys, keyBase) + Locations(values, valueBase) + Flat(keys) + Flat(values) + filler
    requires |h| == NODE_HEADER && keyBase == NODE_HEADER + LOCATION_SIZE * |keys| + LOCATION_SIZE * |values|
    requires valueBase == keyBase + |Flat(keys)|
    ensures Packs(node, keys, values, keyBase, valueBase)
  {
    HoldsAtPlaces(node, h, Locations(keys, keyBase), Locations(values, valueBase), Flat(keys), Flat(values), filler,
                  NODE_HEADER + LOCATION_SIZE * |keys|, keyBase, valueBase);
  }

  lemma EncodedHeader(f: NodeFrame, es: seq<Entry>)
    requires ValidFrame(f) && Packable(es)
    ensures IsTreeNode(EncodeNode(f, es)) && KeyCount(EncodeNode(f, es)) == |es|
  {
    var node, h := EncodeNode(f, es), NodeHeader(f, |es|);
    assert node == h + node[NODE_HEADER..];
    NodeHeaderReads(f, |es|, node[NODE_HEADER..]);
  }

  lemma PackedTableFits(node: seq<byte>, es: seq<Entry>, keyBase: nat, valueBase: nat)
    requires Packs(node, KeysOf(es), ValuesOf(es), keyBase, valueBase)
    ensures TableFits(node, |es|)
  {
    var n := |es|;
    forall i: nat | i < 2 * n ensures LocationFits(node, i) {
      PacksEntry(node, KeysOf(es), ValuesOf(es), keyBase, valueBase, if i < n then i else i - n);
    }
  }

  lemma PackedEntryReads(node: seq<byte>, es: seq<Entry>, keyBase: nat, valueBase: nat, i: nat)
    requires Packs(node, KeysOf(es), ValuesOf(es), keyBase, valueBase)
    requires TableFits(node, |es|) && i < |es|
    ensures EntryAt(node, |es|, i) == es[i]
  {
    PacksEntry(node, KeysOf(es), ValuesOf(es), keyBase, valueBase, i);
  }

  lemma PackedTableReads(node: seq<byte>, es: seq<Entry>, keyBase: nat, valueBase: nat)
    requires Packs(node, KeysOf(es), ValuesOf(es), keyBase, valueBase)
    ensures TableFits(node, |es|) && FirstEntries(node, |es|, |es|) == es
  {
    PackedTableFits(node, es, keyBase, valueBase);
    forall i: nat | i < |es| ensures EntryAt(node, |es|, i) == es[i] {
      PackedEntryReads(node, es, keyBase, valueBase, i);
    }
  }

  /** Encoding a list of entries and reading the node back gives the list. */
  lemma NodeRoundTrip(f: NodeFrame, es: seq<Entry>)
    requires ValidFrame(f) && Packable(es)
    ensures WellFormed(EncodeNode(f, es)) && Entries(EncodeNode(f, es)) == es
  {
    hide EncodeNode, Packs, KeyCount, IsTreeNode;
    EncodedHeader(f, es);
    EncodedPacks(f, es);
    PackedTableReads(EncodeNode(f, es), es, KeyBase(|es|), KeyBase(|es|) + |Flat(KeysOf(es))|);
  }
}
