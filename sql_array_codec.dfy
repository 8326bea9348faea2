/**
 The array codec of the SQL buffer, as values.

 The writer turns an integer array into a list of items: each item holds one
 value and the range of array indices it stands for. With compression on, an
 item stands for a maximal run of equal elements; without it, every element is
 its own item. Once stored, each item becomes a blob value whose prefix is
 "[first" or "[first..last". The reader walks those values, checks every prefix
 against the index it expects and the array size, and fills the array.

 This module holds the specifications: the run list the compressed writer must
 emit, the stored form of the items, the data cursor's single-value read and
 the two array readers as functions of the cursor. The in-place loops that
 implement them live in the SqlBuffer module.
 */
module SqlArrayCodec {

  datatype Option<T> = None | Some(value: T)

  /** One value written for an array: the value, the index of the first
      element it stands for and the number of elements it covers. */
  datatype Item = Item(value: int, index: int, count: int)

  /** End (exclusive) of the run of elements equal to s[i], scanning on from j. */
  function RunEndFrom(s: seq<int>, i: nat, j: nat): (e: nat)
    requires i < j <= |s|
    requires forall k :: i <= k < j ==> s[k] == s[i]
    ensures j <= e <= |s|
    ensures forall k :: i <= k < e ==> s[k] == s[i]
    ensures e == |s| || s[e] != s[i]
    decreases |s| - j
  {
    if j < |s| && s[j] == s[i] then RunEndFrom(s, i, j + 1) else j
  }

  /** The items the compressed writer emits for s[i..]: one per maximal run. */
  function Runs(s: seq<int>, i: nat): (r: seq<Item>)
    requires i <= |s|
    ensures |r| <= |s| - i
    ensures r == [] <==> i == |s|
    ensures i < |s| ==> r[0].value == s[i] && r[0].index == i && r[0].count >= 1 && i + r[0].count <= |s|
    decreases |s| - i
  {
    if i == |s| then []
    else
      var e := RunEndFrom(s, i, i + 1);
      [Item(s[i], i, e - i)] + Runs(s, e)
  }

  /** A maximal run [i, e) of elements equal to s[i] is the first item the
      compressed writer emits from i, and the writer goes on from e. */
  lemma RunsStep(s: seq<int>, i: nat, e: nat)
    requires i < e <= |s|
    requires forall k :: i <= k < e ==> s[k] == s[i]
    requires e == |s| || s[e] != s[i]
    ensures Runs(s, i) == [Item(s[i], i, e - i)] + Runs(s, e)
  {
    assert RunEndFrom(s, i, i + 1) == e;
  }

  /** Output of the compressed writer for a whole array. */
  function Compress(s: seq<int>): (r: seq<Item>)
    ensures |r| <= |s|
    ensures r == [] <==> s == []
  {
    Runs(s, 0)
  }

  /** Output of the uncompressed writer: every element with its own index and count 1. */
  function Uncompressed(s: seq<int>): (r: seq<Item>)
    ensures |r| == |s|
    ensures forall k :: 0 <= k < |s| ==> r[k] == Item(s[k], k, 1)
  {
    seq(|s|, k requires 0 <= k < |s| => Item(s[k], k, 1))
  }

  /** The items tile s[i..]: the first starts at i, each starts where the
      previous one ended, each covers at least one element, all elements of
      an item equal its value, and the last one ends at |s|. */
  ghost predicate Tiles(items: seq<Item>, s: seq<int>, i: int)
    decreases |items|
  {
    if items == [] then i == |s|
    else
      var it := items[0];
      && it.index == i
      && 0 <= i
      && 1 <= it.count
      && i + it.count <= |s|
      && (forall k :: i <= k < i + it.count ==> s[k] == it.value)
      && Tiles(items[1..], s, i + it.count)
  }

  /** Sum of the counts of a list of items. */
  function SumCounts(items: seq<Item>): int
  {
    if items == [] then 0 else items[0].count + SumCounts(items[1..])
  }

  /** Neighbouring items carry different values (the runs are maximal). */
  ghost predicate NeighboursDiffer(items: seq<Item>)
  {
    forall j :: 0 <= j < |items| - 1 ==> items[j].value != items[j + 1].value
  }

  lemma {:induction false} RunsTile(s: seq<int>, i: nat)
    requires i <= |s|
    ensures Tiles(Runs(s, i), s, i)
    decreases |s| - i
  {
    if i < |s| {
      var e := RunEndFrom(s, i, i + 1);
      RunsTile(s, e);
      assert Runs(s, i)[1..] == Runs(s, e);
    }
  }

  lemma {:induction false} RunsHead(s: seq<int>, i: nat)
    requires i < |s|
    ensures Runs(s, i) != [] && Runs(s, i)[0].value == s[i]
  {
  }

  lemma {:induction false} RunsMaximal(s: seq<int>, i: nat)
    requires i <= |s|
    ensures NeighboursDiffer(Runs(s, i))
    decreases |s| - i
  {
    if i < |s| {
      var e := RunEndFrom(s, i, i + 1);
      var r := Runs(s, i);
      assert r[1..] == Runs(s, e);
      RunsMaximal(s, e);
      if e < |s| {
        RunsHead(s, e);
        assert r[1].value == s[e] != s[i] == r[0].value;
      }
      forall j | 0 <= j < |r| - 1
        ensures r[j].value != r[j + 1].value
      {
        if j > 0 {
          assert r[j] == r[1..][j - 1] && r[j + 1] == r[1..][j];
        }
      }
    }
  }

  /** A tiling of s[i..] has counts summing to |s| - i. */
  lemma {:induction false} TilesCountSum(items: seq<Item>, s: seq<int>, i: int)
    requires Tiles(items, s, i)
    ensures SumCounts(items) == |s| - i
    decreases |items|
  {
    if items != [] {
      TilesCountSum(items[1..], s, i + items[0].count);
    }
  }

  /** Every element of s sits in exactly one item of a tiling of s[i..]. */
  lemma {:induction false} TilesCover(items: seq<Item>, s: seq<int>, i: int, k: int)
    requires Tiles(items, s, i)
    requires i <= k < |s|
    ensures exists j :: 0 <= j < |items| && items[j].index <= k < items[j].index + items[j].count
    ensures forall j :: 0 <= j < |items| && items[j].index <= k < items[j].index + items[j].count ==> s[k] == items[j].value
    decreases |items|
  {
    var it := items[0];
    if k < i + it.count {
      assert items[0].index <= k < items[0].index + items[0].count;
      forall j | 1 <= j < |items| ensures items[j].index >= i + it.count {
        TilesIndexFrom(items[1..], s, i + it.count, j - 1);
      }
    } else {
      TilesCover(items[1..], s, i + it.count, k);
      var j :| 0 <= j < |items[1..]| && items[1..][j].index <= k < items[1..][j].index + items[1..][j].count;
      assert items[j + 1] == items[1..][j];
      forall j' | 0 <= j' < |items| && items[j'].index <= k < items[j'].index + items[j'].count
        ensures s[k] == items[j'].value
      {
        if j' > 0 {
          assert items[j'] == items[1..][j' - 1];
        }
      }
    }
  }

  /** In a tiling of s[i..], item j starts at i or later. */
  lemma {:induction false} TilesIndexFrom(items: seq<Item>, s: seq<int>, i: int, j: nat)
    requires Tiles(items, s, i)
    requires j < |items|
    ensures items[j].index >= i
    decreases |items|
  {
    if j > 0 {
      TilesIndexFrom(items[1..], s, i + items[0].count, j - 1);
      assert items[j] == items[1..][j - 1];
    }
  }

  /** The compressed writer's output: runs of count at least 1, contiguous
      from index 0, counts summing to the array size, every element equal to
      its run's value, and neighbouring runs with different values. */
  lemma CompressProperties(s: seq<int>)
    ensures Tiles(Compress(s), s, 0)
    ensures SumCounts(Compress(s)) == |s|
    ensures NeighboursDiffer(Compress(s))
    ensures |Compress(s)| <= |s|
  {
    RunsTile(s, 0);
    TilesCountSum(Compress(s), s, 0);
    RunsMaximal(s, 0);
    TilesLength(Compress(s), s, 0);
  }

  /** A tiling of s[i..] has at most |s| - i items. */
  lemma {:induction false} TilesLength(items: seq<Item>, s: seq<int>, i: int)
    requires Tiles(items, s, i)
    ensures |items| <= |s| - i
    decreases |items|
  {
    if items != [] {
      TilesLength(items[1..], s, i + items[0].count);
    }
  }

  /** The uncompressed writer's output also tiles the array. */
  lemma UncompressedTiles(s: seq<int>)
    ensures Tiles(Uncompressed(s), s, 0)
  {
    UncompressedTilesFrom(s, 0);
    assert Uncompressed(s)[0..] == Uncompressed(s);
  }

  lemma {:induction false} UncompressedTilesFrom(s: seq<int>, i: nat)
    requires i <= |s|
    ensures Tiles(Uncompressed(s)[i..], s, i)
    decreases |s| - i
  {
    var u := Uncompressed(s)[i..];
    if i < |s| {
      UncompressedTilesFrom(s, i + 1);
      assert u[1..] == Uncompressed(s)[i + 1..];
      assert u[0] == Item(s[i], i, 1);
    } else {
      assert u == [];
    }
  }

  // ---------------------------------------------------------------------
  // Stored form and the data cursor

  /** Prefix of a stored blob value: "[first" or "[first..last". */
  datatype Prefix = Index(first: int) | IndexRange(first: int, last: int)

  /** Type tags the cursor's values carry (only the ones this model reads). */
  datatype TypeTag = IntTag | VersionTag | ArrayTag | OtherTag

  /** One value of an object's data: its type tag, its blob prefix and its
      content, already converted to an integer. */
  datatype DataValue = DataValue(tag: TypeTag, prefix: Prefix, payload: int)

  /** First and last index a prefix names; "[first" names first..first. */
  function Bounds(p: Prefix): (r: (int, int))
    ensures r.0 == p.first
    ensures p.Index? ==> r.1 == r.0
  {
    match p
    case Index(f) => (f, f)
    case IndexRange(f, l) => (f, l)
  }

  /** The blob prefix an item is stored under. */
  function PrefixOf(it: Item): (p: Prefix)
    ensures it.count >= 1 ==> Bounds(p) == (it.index, it.index + it.count - 1)
  {
    if it.count == 1 then Index(it.index) else IndexRange(it.index, it.index + it.count - 1)
  }

  /** The values an array writer's items become once stored. */
  function Stored(items: seq<Item>): (r: seq<DataValue>)
    ensures |r| == |items|
  {
    seq(|items|, k requires 0 <= k < |items| => DataValue(IntTag, PrefixOf(items[k]), items[k].value))
  }

  /** The data cursor: the current object's values, the position of the next
      value to read, and the buffer's sticky error flag. */
  datatype Cursor = Cursor(values: seq<DataValue>, pos: nat, errorFlag: int)

  /** One read of the next value with the given type tag: the value read
      (None for a null return) and the cursor afterwards. A raised flag
      blocks the read; missing data, or a tag mismatch unless verification
      is ignored, raises it; a successful read advances by one value. */
  function ReadValue(c: Cursor, hasData: bool, ignoreVerification: bool, tag: TypeTag): (r: (Option<int>, Cursor))
    ensures r.1.values == c.values
    ensures c.errorFlag > 0 ==> r == (None, c)
    ensures r.0.Some? <==> (c.errorFlag <= 0 && hasData && c.pos < |c.values|
                            && (ignoreVerification || c.values[c.pos].tag == tag))
    ensures r.0.Some? ==> r.0.value == c.values[c.pos].payload && r.1 == c.(pos := c.pos + 1)
    ensures r.0.None? && c.errorFlag <= 0 ==> r.1 == c.(errorFlag := 1)
  {
    if c.errorFlag > 0 then (None, c)
    else if !hasData || c.pos >= |c.values| then (None, c.(errorFlag := 1))
    else if !ignoreVerification && c.values[c.pos].tag != tag then (None, c.(errorFlag := 1))
    else (Some(c.values[c.pos].payload), c.(pos := c.pos + 1))
  }

  /** The reading of one basic integer: a failed read yields 0. */
  function ValueOrZero(v: Option<int>): int
  {
    if v.Some? then v.value else 0
  }

  /** Progress of an array read: the elements filled so far and the cursor. */
  datatype ReadState = ReadState(filled: seq<int>, cursor: Cursor)

  /** The compressed array reader from a given state, for an array of n
      elements. At each step the prefix of the current value must start at
      the next unfilled index and end at or after it, inside the array;
      otherwise the error flag is set and reading stops. Otherwise one
      integer is read and copied through the prefix's last index. */
  function ReadCompressedFrom(n: nat, ignoreVerification: bool, st: ReadState): (r: ReadState)
    requires |st.filled| <= n
    ensures |st.filled| <= |r.filled| <= n
    decreases n - |st.filled|
  {
    var indx := |st.filled|;
    var c := st.cursor;
    if indx == n then st
    else if c.pos >= |c.values| then ReadState(st.filled, c.(errorFlag := 1))
    else
      var (first, last) := Bounds(c.values[c.pos].prefix);
      if first != indx || last < first || last >= n then ReadState(st.filled, c.(errorFlag := 1))
      else
        var (v, c') := ReadValue(c, true, ignoreVerification, IntTag);
        var x := ValueOrZero(v);
        ReadCompressedFrom(n, ignoreVerification, ReadState(st.filled + seq(last - first + 1, _ => x), c'))
  }

  /** The compressed reader only appends to what is already filled, never
      touches the cursor's values, and ends with the array filled or with
      the error flag at 1. */
  lemma {:induction false} ReadCompressedFacts(n: nat, ignoreVerification: bool, st: ReadState)
    requires |st.filled| <= n
    ensures var r := ReadCompressedFrom(n, ignoreVerification, st);
            && r.filled[..|st.filled|] == st.filled
            && (|r.filled| == n || r.cursor.errorFlag == 1)
            && r.cursor.values == st.cursor.values
    decreases n - |st.filled|
  {
    var indx := |st.filled|;
    var c := st.cursor;
    if indx < n && c.pos < |c.values| {
      var (first, last) := Bounds(c.values[c.pos].prefix);
      if !(first != indx || last < first || last >= n) {
        var (v, c') := ReadValue(c, true, ignoreVerification, IntTag);
        var st' := ReadState(st.filled + seq(last - first + 1, _ => ValueOrZero(v)), c');
        ReadCompressedFacts(n, ignoreVerification, st');
        var r := ReadCompressedFrom(n, ignoreVerification, st');
        assert r.filled[..indx] == r.filled[..last + 1][..indx];
      }
    }
  }

  /** One accepted run of the compressed reader: the value read is copied
      over the prefix's whole index range and reading goes on from there. */
  lemma ReadCompressedStep(n: nat, ignoreVerification: bool, st: ReadState)
    requires |st.filled| < n && st.cursor.pos < |st.cursor.values|
    requires var (first, last) := Bounds(st.cursor.values[st.cursor.pos].prefix);
             first == |st.filled| && first <= last < n
    ensures var (first, last) := Bounds(st.cursor.values[st.cursor.pos].prefix);
            var (v, c') := ReadValue(st.cursor, true, ignoreVerification, IntTag);
            ReadCompressedFrom(n, ignoreVerification, st)
            == ReadCompressedFrom(n, ignoreVerification, ReadState(st.filled + seq(last - first + 1, _ => ValueOrZero(v)), c'))
  {
  }

  /** The uncompressed array reader: one integer read per element; once the
      error flag is up every further element reads as 0. */
  function ReadUncompressedFrom(n: nat, ignoreVerification: bool, st: ReadState): (r: ReadState)
    requires |st.filled| <= n
    ensures |r.filled| == n
    decreases n - |st.filled|
  {
    if |st.filled| == n then st
    else
      var (v, c') := ReadValue(st.cursor, true, ignoreVerification, IntTag);
      ReadUncompressedFrom(n, ignoreVerification, ReadState(st.filled + [ValueOrZero(v)], c'))
  }

  /** The uncompressed reader only appends to what is already filled and
      never touches the cursor's values. */
  lemma {:induction false} ReadUncompressedFacts(n: nat, ignoreVerification: bool, st: ReadState)
    requires |st.filled| <= n
    ensures var r := ReadUncompressedFrom(n, ignoreVerification, st);
            r.filled[..|st.filled|] == st.filled && r.cursor.values == st.cursor.values
    decreases n - |st.filled|
  {
    if |st.filled| < n {
      var (v, c') := ReadValue(st.cursor, true, ignoreVerification, IntTag);
      var st' := ReadState(st.filled + [ValueOrZero(v)], c');
      ReadUncompressedFacts(n, ignoreVerification, st');
      var r := ReadUncompressedFrom(n, ignoreVerification, st');
      assert r.filled[..|st.filled|] == r.filled[..|st.filled| + 1][..|st.filled|];
    }
  }

  /** Once the error flag is up, the uncompressed reader reads every
      remaining element as 0 and leaves the cursor where it is. */
  lemma {:induction false} ReadUncompressedSticky(n: nat, ignoreVerification: bool, st: ReadState)
    requires |st.filled| <= n && st.cursor.errorFlag > 0
    ensures ReadUncompressedFrom(n, ignoreVerification, st)
            == ReadState(st.filled + seq(n - |st.filled|, _ => 0), st.cursor)
    decreases n - |st.filled|
  {
    if |st.filled| < n {
      var st' := ReadState(st.filled + [0], st.cursor);
      ReadUncompressedSticky(n, ignoreVerification, st');
      assert st.filled + [0] + seq(n - |st.filled| - 1, _ => 0) == st.filled + seq(n - |st.filled|, _ => 0);
    }
  }

  /** The array reader for n elements: blob data is read run by run,
      other data one value per element. */
  function ReadArray(n: nat, isBlob: bool, ignoreVerification: bool, c: Cursor): (r: ReadState)
    ensures |r.filled| <= n
    ensures !isBlob ==> |r.filled| == n
    ensures |r.filled| == n || r.cursor.errorFlag == 1
  {
    ReadCompressedFacts(n, ignoreVerification, ReadState([], c));
    if isBlob then ReadCompressedFrom(n, ignoreVerification, ReadState([], c))
    else ReadUncompressedFrom(n, ignoreVerification, ReadState([], c))
  }

  // ---------------------------------------------------------------------
  // Round trips

  /** Reading stored items that tile s[i..], with the first i elements
      already filled, fills the whole of s and consumes exactly one value
      per item, without raising the error flag. */
  lemma {:induction false} ReadTiles(items: seq<Item>, s: seq<int>, ignoreVerification: bool, st: ReadState)
    requires |st.filled| <= |s| && st.filled == s[..|st.filled|]
    requires Tiles(items, s, |st.filled|)
    requires st.cursor.errorFlag <= 0
    requires st.cursor.pos + |items| <= |st.cursor.values|
    requires forall j :: 0 <= j < |items| ==> st.cursor.values[st.cursor.pos + j] == Stored(items)[j]
    ensures ReadCompressedFrom(|s|, ignoreVerification, st) == ReadState(s, st.cursor.(pos := st.cursor.pos + |items|))
    decreases |items|
  {
    var c := st.cursor;
    var i := |st.filled|;
    if items == [] {
      assert st.filled == s;
    } else {
      var it := items[0];
      assert c.values[c.pos] == Stored(items)[0];
      assert Bounds(c.values[c.pos].prefix) == (i, i + it.count - 1);
      var (v, c') := ReadValue(c, true, ignoreVerification, IntTag);
      assert v == Some(it.value) && c' == c.(pos := c.pos + 1);
      var filled' := st.filled + seq(it.count, _ => it.value);
      assert filled' == s[..i + it.count];
      forall j | 0 <= j < |items[1..]|
        ensures c'.values[c'.pos + j] == Stored(items[1..])[j]
      {
        assert c'.values[c'.pos + j] == c.values[c.pos + (j + 1)] == Stored(items)[j + 1];
      }
      ReadTiles(items[1..], s, ignoreVerification, ReadState(filled', c'));
    }
  }

  /** Reading back what the compressed writer stored reconstructs the array
      exactly and consumes one value per run. */
  lemma CompressRoundTrip(s: seq<int>, ignoreVerification: bool)
    ensures ReadCompressedFrom(|s|, ignoreVerification, ReadState([], Cursor(Stored(Compress(s)), 0, 0)))
            == ReadState(s, Cursor(Stored(Compress(s)), |Compress(s)|, 0))
  {
    RunsTile(s, 0);
    ReadTiles(Compress(s), s, ignoreVerification, ReadState([], Cursor(Stored(Compress(s)), 0, 0)));
  }

  /** The same reader also restores what the uncompressed writer stored. */
  lemma UncompressedRoundTrip(s: seq<int>, ignoreVerification: bool)
    ensures ReadCompressedFrom(|s|, ignoreVerification, ReadState([], Cursor(Stored(Uncompressed(s)), 0, 0)))
            == ReadState(s, Cursor(Stored(Uncompressed(s)), |s|, 0))
  {
    UncompressedTiles(s);
    ReadTiles(Uncompressed(s), s, ignoreVerification, ReadState([], Cursor(Stored(Uncompressed(s)), 0, 0)));
  }

  /** The contents of a list of values. */
  function Payloads(vs: seq<DataValue>): (r: seq<int>)
    ensures |r| == |vs|
    ensures forall k :: 0 <= k < |vs| ==> r[k] == vs[k].payload
  {
    seq(|vs|, k requires 0 <= k < |vs| => vs[k].payload)
  }

  /** Every value of the list is tagged as an integer. */
  ghost predicate AllInt(vs: seq<DataValue>)
  {
    forall k :: 0 <= k < |vs| ==> vs[k].tag == IntTag
  }

  /** The uncompressed reader returns the next integer values in order,
      advancing the cursor by one per element, when no error is up and the
      next values are integers. */
  lemma {:induction false} ReadUncompressedValues(s: seq<int>, ignoreVerification: bool, st: ReadState)
    requires |st.filled| <= |s| && st.filled == s[..|st.filled|]
    requires st.cursor.errorFlag <= 0
    requires st.cursor.pos + (|s| - |st.filled|) <= |st.cursor.values|
    requires AllInt(st.cursor.values[st.cursor.pos..st.cursor.pos + (|s| - |st.filled|)])
    requires Payloads(st.cursor.values[st.cursor.pos..st.cursor.pos + (|s| - |st.filled|)]) == s[|st.filled|..]
    ensures ReadUncompressedFrom(|s|, ignoreVerification, st)
            == ReadState(s, st.cursor.(pos := st.cursor.pos + |s| - |st.filled|))
    decreases |s| - |st.filled|
  {
    var i := |st.filled|;
    if i == |s| {
      assert st.filled == s;
    } else {
      var c := st.cursor;
      var m := |s| - i;
      var window := c.values[c.pos..c.pos + m];
      assert window[0] == c.values[c.pos];
      assert Payloads(window)[0] == s[i];
      var c' := c.(pos := c.pos + 1);
      assert ReadValue(c, true, ignoreVerification, IntTag) == (Some(s[i]), c');
      assert st.filled + [s[i]] == s[..i + 1];
      var st' := ReadState(s[..i + 1], c');
      assert c'.values[c'.pos..c'.pos + (m - 1)] == window[1..];
      assert Payloads(window[1..]) == Payloads(window)[1..];
      assert s[i + 1..] == s[i..][1..];
      ReadUncompressedValues(s, ignoreVerification, st');
    }
  }

  /** A prefix that does not start at the next index, ends before it starts
      or ends outside the array stops the compressed reader at once: the
      flag is set to 1 and nothing more is filled or consumed. */
  lemma RejectedPrefixStops(n: nat, ignoreVerification: bool, st: ReadState)
    requires |st.filled| < n
    requires st.cursor.pos < |st.cursor.values|
    requires var (first, last) := Bounds(st.cursor.values[st.cursor.pos].prefix);
             first != |st.filled| || last < first || last >= n
    ensures ReadCompressedFrom(n, ignoreVerification, st) == ReadState(st.filled, st.cursor.(errorFlag := 1))
  {
  }
}
