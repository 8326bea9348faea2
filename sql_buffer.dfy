/**
 The SQL buffer's own state: the stack of structure nodes built while an
 object is written or read, the map from written objects to their ids, the
 sticky error flag, the one-shot version buffer and the cursor over the
 current object's data. The array writer and reader loops work in place on
 an integer array and are proved against the run-list specifications of
 SqlArrayCodec.
 */
module SqlBuffer {
  import opened SqlArrayCodec

  /** An object's address; 0 is the null pointer. */
  type ObjPtr = nat

  /** A class, by identity. */
  type ClassRef = nat

  /** What a structure node records about what was streamed under it. */
  datatype NodeKind =
    | Plain
    | ArrayNode(size: int)
    | ObjectPointer(id: int)
    | ObjectRef(id: int, cl: ClassRef)

  /** Class name and version stored for one object id. */
  datatype ObjectInfo = ObjectInfo(objId: int, className: string, version: int)

  /** A 16-bit version number as the C++ conversion to Version_t yields it. */
  function Short(x: int): (r: int)
    ensures -0x8000 <= r < 0x8000
    ensures (r - x) % 0x1_0000 == 0
    ensures -0x8000 <= x < 0x8000 ==> r == x
  {
    (x + 0x8000) % 0x1_0000 - 0x8000
  }

  /** Value stored under an object in the object map; 0 when it is absent. */
  function Lookup(m: map<ObjPtr, int>, p: ObjPtr): int
  {
    if p in m then m[p] else 0
  }

  /** One node of the structure tree. Its parent is fixed when it is created. */
  class SqlStructure {
    const parent: SqlStructure?
    var children: seq<SqlStructure>
    var kind: NodeKind
    var items: seq<Item>

    constructor (parent: SqlStructure?)
      ensures this.parent == parent
      ensures children == [] && kind == Plain && items == []
    {
      this.parent := parent;
      children := [];
      kind := Plain;
      items := [];
    }

    method Add(child: SqlStructure)
      modifies this`children
      ensures children == old(children) + [child]
    {
      children := children + [child];
    }

    method SetKind(k: NodeKind)
      modifies this`kind
      ensures kind == k
    {
      kind := k;
    }

    /** A value written for an array element range: the value and the index
        range it stands for. */
    method AddArrayValue(value: int, index: int, count: int)
      modifies this`items
      ensures items == old(items) + [Item(value, index, count)]
    {
      items := items + [Item(value, index, count)];
    }
  }

  class BufferSql2 {
    var structure: SqlStructure?
    var stk: SqlStructure?
    /** The stack from its top down to the node without a parent. */
    ghost var chain: seq<SqlStructure>
    var objMap: map<ObjPtr, int>
    var firstObjId: int
    var objIdCounter: int
    var errorFlag: int
    var compressLevel: int
    var readVersionBuffer: int
    var ignoreVerification: bool
    /** Whether there is current object data at all. */
    var hasData: bool
    /** Whether the current object data comes from the blob table. */
    var isBlob: bool
    var values: seq<DataValue>
    var pos: nat
    var objectsInfos: Option<seq<ObjectInfo>>

    /** The stack is the parent chain from its top: each node's parent is the
        next one, and the last node has no parent. */
    ghost predicate StackValid()
      reads this
    {
      && (stk == null <==> chain == [])
      && (stk != null ==> stk == chain[0])
      && (forall i :: 0 <= i < |chain| - 1 ==> chain[i].parent == chain[i + 1])
      && (chain != [] ==> chain[|chain| - 1].parent == null)
    }

    /** Object ids handed out so far are distinct: every recorded value lies
        in 1 .. objIdCounter - firstObjId and no two objects share one. */
    ghost predicate IdsValid()
      reads this
    {
      && firstObjId <= objIdCounter
      && (forall p :: p in objMap ==> 1 <= objMap[p] <= objIdCounter - firstObjId)
      && (forall p, q :: p in objMap && q in objMap && p != q ==> objMap[p] != objMap[q])
    }

    ghost function CursorOf(): Cursor
      reads this
    {
      Cursor(values, pos, errorFlag)
    }

    constructor (compressLevel: int)
      ensures StackValid() && IdsValid()
      ensures structure == null && stk == null && chain == [] && objMap == map[]
      ensures firstObjId == 0 && objIdCounter == 1 && errorFlag == 0
      ensures this.compressLevel == compressLevel && readVersionBuffer == -1
      ensures !ignoreVerification && !hasData && objectsInfos == None
    {
      structure := null;
      stk := null;
      chain := [];
      objMap := map[];
      firstObjId := 0;
      objIdCounter := 1;
      errorFlag := 0;
      this.compressLevel := compressLevel;
      readVersionBuffer := -1;
      ignoreVerification := false;
      hasData := false;
      isBlob := false;
      values := [];
      pos := 0;
      objectsInfos := None;
    }

    /** A new node becomes the top of the stack, as a child of the previous
        top; on an empty stack it becomes the root structure instead. */
    method PushStack() returns (node: SqlStructure)
      requires StackValid()
      modifies this`stk, this`chain, this`structure, stk
      ensures StackValid()
      ensures fresh(node) && node.parent == old(stk)
      ensures node.children == [] && node.kind == Plain && node.items == []
      ensures stk == node && chain == [node] + old(chain)
      ensures structure == if old(stk) == null then node else old(structure)
      ensures old(stk) != null ==> old(stk).children == old(stk.children) + [node]
      ensures old(stk) != null ==> old(stk).kind == old(stk.kind) && old(stk).items == old(stk.items)
    {
      node := new SqlStructure(stk);
      if stk == null {
        structure := node;
      } else {
        stk.Add(node);
      }
      stk := node;
      chain := [node] + chain;
    }

    /** The top moves to its parent; on an empty stack nothing changes and
        null is returned. */
    method PopStack() returns (r: SqlStructure?)
      requires StackValid()
      modifies this`stk, this`chain
      ensures StackValid()
      ensures old(stk) == null ==> r == null && stk == null && chain == old(chain)
      ensures old(stk) != null ==> stk == old(stk).parent && chain == old(chain)[1..] && r == stk
    {
      if stk == null {
        return null;
      }
      assert |chain| > 1 ==> chain[0].parent == chain[1];
      stk := stk.parent;
      chain := chain[1..];
      r := stk;
    }

    /** The depth-th node below the top (the top itself for depth 0 or
        less), or null when the stack is not that deep. */
    method Stack(depth: int) returns (r: SqlStructure?)
      requires StackValid()
      ensures var d := if depth < 0 then 0 else depth;
              r == if d < |chain| then chain[d] else null
    {
      var curr := stk;
      var d := depth;
      ghost var walked := 0;
      while d > 0 && curr != null
        invariant 0 <= walked <= |chain|
        invariant d == depth - walked
        invariant walked > 0 ==> d >= 0
        invariant curr == if walked < |chain| then chain[walked] else null
      {
        d := d - 1;
        curr := curr.parent;
        walked := walked + 1;
      }
      r := curr;
    }

    /** Writes an object: null objects and objects of no class get id 0, an
        object written before gets its recorded id back, a new one gets the
        next id from the counter and is recorded. A node for the object is
        pushed for the duration of the call. */
    method SqlWriteObject(obj: ObjPtr, cl: Option<ClassRef>) returns (objid: int, ghost node: SqlStructure)
      requires StackValid()
      modifies this`stk, this`chain, this`structure, this`objMap, this`objIdCounter, stk
      ensures StackValid() && stk == old(stk) && chain == old(chain)
      ensures fresh(node) && node.parent == old(stk) && node.items == []
      ensures structure == if old(stk) == null then node else old(structure)
      ensures old(stk) != null ==> old(stk).children == old(stk.children) + [node]
      ensures old(stk) != null ==> old(stk).kind == old(stk.kind) && old(stk).items == old(stk.items)
      ensures obj == 0 || cl.None? ==>
                objid == 0 && node.kind == ObjectPointer(0)
                && objMap == old(objMap) && objIdCounter == old(objIdCounter)
      ensures obj != 0 && cl.Some? && Lookup(old(objMap), obj) > 0
              && firstObjId + Lookup(old(objMap), obj) - 1 >= 0 ==>
                objid == firstObjId + Lookup(old(objMap), obj) - 1 && node.kind == ObjectPointer(objid)
                && objMap == old(objMap) && objIdCounter == old(objIdCounter)
      ensures obj != 0 && cl.Some? && !(Lookup(old(objMap), obj) > 0
              && firstObjId + Lookup(old(objMap), obj) - 1 >= 0) ==>
                objid == old(objIdCounter) && objIdCounter == old(objIdCounter) + 1
                && node.kind == ObjectRef(objid, cl.value)
                && objMap == if Lookup(old(objMap), obj) == 0
                             then old(objMap)[obj := objid - firstObjId + 1] else old(objMap)
      ensures old(IdsValid()) ==> IdsValid()
      ensures old(IdsValid()) && objid == old(objIdCounter) ==>
                forall p :: p in old(objMap) ==> firstObjId + old(objMap)[p] - 1 < objid
    {
      var pushed := PushStack();
      node := pushed;
      objid := -1;
      var o := if cl.None? then 0 else obj;
      if o == 0 {
        objid := 0;
      } else {
        var value := Lookup(objMap, o);
        if value > 0 {
          objid := firstObjId + value - 1;
        }
      }
      var top := Stack(0);
      if objid >= 0 {
        top.SetKind(ObjectPointer(objid));
        var _ := PopStack();
        return;
      }
      objid := objIdCounter;
      objIdCounter := objIdCounter + 1;
      top.SetKind(ObjectRef(objid, cl.value));
      if Lookup(objMap, o) == 0 {
        objMap := objMap[o := objid - firstObjId + 1];
      }
      var _ := PopStack();
    }

    /** Starts writing a top-level object: clears the error flag and the root
        structure, starts the id counter at objid and writes the object;
        returns the root structure built. */
    method SqlWriteAny(obj: ObjPtr, cl: Option<ClassRef>, objid: int) returns (root: SqlStructure?)
      requires StackValid()
      modifies this`stk, this`chain, this`structure, this`objMap, this`objIdCounter, this`firstObjId, this`errorFlag, stk
      ensures StackValid() && stk == old(stk) && chain == old(chain)
      ensures errorFlag == 0 && firstObjId == objid && root == structure
      ensures old(stk) == null ==> root != null && fresh(root) && root.parent == null
      ensures old(stk) != null ==> root == null
      ensures obj != 0 && cl.Some? && Lookup(old(objMap), obj) == 0 ==>
                objIdCounter == objid + 1 && objMap == old(objMap)[obj := 1]
      ensures obj == 0 || cl.None? ==> objIdCounter == objid && objMap == old(objMap)
      ensures obj != 0 && cl.Some? && Lookup(old(objMap), obj) > 0 && objid + Lookup(old(objMap), obj) - 1 >= 0 ==>
                objIdCounter == objid && objMap == old(objMap)
      ensures old(stk) == null && (obj == 0 || cl.None?) ==> root != null && root.kind == ObjectPointer(0)
      ensures old(stk) == null && obj != 0 && cl.Some? && Lookup(old(objMap), obj) > 0
              && objid + Lookup(old(objMap), obj) - 1 >= 0 ==>
                root != null && root.kind == ObjectPointer(objid + Lookup(old(objMap), obj) - 1)
      ensures old(stk) == null && obj != 0 && cl.Some? && Lookup(old(objMap), obj) == 0 ==>
                root != null && root.kind == ObjectRef(objid, cl.value)
      ensures old(stk) != null ==> old(stk).kind == old(stk.kind) && old(stk).items == old(stk.items)
    {
      errorFlag := 0;
      structure := null;
      firstObjId := objid;
      objIdCounter := objid;
      var _, node := SqlWriteObject(obj, cl);
      root := structure;
    }

    /** Reads a version: a buffered version (not negative) is returned once
        and the buffer emptied; otherwise a blob value tagged as a version is
        consumed; failing both, the error flag is set and 0 returned. */
    method ReadVersion() returns (res: int)
      modifies this`readVersionBuffer, this`pos, this`errorFlag
      ensures old(readVersionBuffer) >= 0 ==>
                res == old(readVersionBuffer) && readVersionBuffer == -1
                && pos == old(pos) && errorFlag == old(errorFlag)
      ensures old(readVersionBuffer) < 0 && hasData && isBlob && old(pos) < |values|
              && values[old(pos)].tag == VersionTag ==>
                res == Short(values[old(pos)].payload) && pos == old(pos) + 1
                && readVersionBuffer == old(readVersionBuffer) && errorFlag == old(errorFlag)
      ensures old(readVersionBuffer) < 0 && !(hasData && isBlob && old(pos) < |values|
              && values[old(pos)].tag == VersionTag) ==>
                res == 0 && errorFlag == 1 && pos == old(pos) && readVersionBuffer == old(readVersionBuffer)
    {
      res := 0;
      if readVersionBuffer >= 0 {
        res := readVersionBuffer;
        readVersionBuffer := -1;
      } else if hasData && isBlob && pos < |values| && values[pos].tag == VersionTag {
        res := Short(values[pos].payload);
        pos := pos + 1;
      } else {
        errorFlag := 1;
      }
    }

    /** Reads the next value of the current object data. A raised error flag
        makes it return nothing and change nothing; missing data, or a type
        mismatch unless verification is ignored, raises the flag; a success
        moves the cursor on by exactly one value. */
    method SqlReadValue(tag: TypeTag) returns (r: Option<int>)
      modifies this`pos, this`errorFlag
      ensures (r, CursorOf()) == ReadValue(old(CursorOf()), hasData, ignoreVerification, tag)
      ensures old(errorFlag) > 0 ==> r.None? && pos == old(pos) && errorFlag == old(errorFlag)
      ensures r.Some? <==> old(errorFlag) <= 0 && hasData && old(pos) < |values|
                           && (ignoreVerification || values[old(pos)].tag == tag)
      ensures r.Some? ==> r.value == values[old(pos)].payload && pos == old(pos) + 1 && errorFlag == old(errorFlag)
      ensures r.None? ==> pos == old(pos) && (old(errorFlag) <= 0 ==> errorFlag == 1)
    {
      if errorFlag > 0 {
        return None;
      }
      if !hasData || pos >= |values| {
        errorFlag := 1;
        return None;
      }
      if !ignoreVerification && values[pos].tag != tag {
        errorFlag := 1;
        return None;
      }
      r := Some(values[pos].payload);
      pos := pos + 1;
    }

    /** Reads one integer; a failed read gives 0. */
    method SqlReadBasicInt() returns (v: int)
      modifies this`pos, this`errorFlag
      ensures var (r, c) := ReadValue(old(CursorOf()), hasData, ignoreVerification, IntTag);
              v == ValueOrZero(r) && CursorOf() == c
    {
      var r := SqlReadValue(IntTag);
      v := ValueOrZero(r);
    }

    /** The compressed writer's loop: one value per maximal run of equal
        elements, tagged with the run's first index and its length. */
    method WriteArrayCompress(a: array<int>, top: SqlStructure)
      modifies top`items
      ensures top.items == old(top.items) + Compress(a[..])
    {
      ghost var s := a[..];
      var indx := 0;
      while indx < a.Length
        invariant 0 <= indx <= |s|
        invariant top.items + Runs(s, indx) == old(top.items) + Compress(s)
      {
        var curr := indx;
        indx := indx + 1;
        while indx < a.Length && a[indx] == a[curr]
          invariant curr < indx <= |s|
          invariant forall k :: curr <= k < indx ==> s[k] == s[curr]
        {
          indx := indx + 1;
        }
        RunsStep(s, curr, indx);
        top.AddArrayValue(a[curr], curr, indx - curr);
      }
    }

    /** The uncompressed writer's loop: one value per element, tagged with
        its index and count 1. */
    method WriteArrayNoncompress(a: array<int>, top: SqlStructure)
      modifies top`items
      ensures top.items == old(top.items) + Uncompressed(a[..])
    {
      for indx := 0 to a.Length
        invariant top.items == old(top.items) + Uncompressed(a[..indx])
      {
        assert Uncompressed(a[..indx + 1]) == Uncompressed(a[..indx]) + [Item(a[indx], indx, 1)];
        top.AddArrayValue(a[indx], indx, 1);
      }
      assert a[..a.Length] == a[..];
    }

    /** Writes the content of an integer array under a new array node,
        compressed when the compression level is positive. */
    method WriteArrayContent(a: array<int>, withSize: bool) returns (ghost node: SqlStructure)
      requires StackValid()
      modifies this`stk, this`chain, this`structure, stk
      ensures StackValid() && stk == old(stk) && chain == old(chain)
      ensures fresh(node) && node.parent == old(stk)
      ensures structure == if old(stk) == null then node else old(structure)
      ensures old(stk) != null ==> old(stk).children == old(stk.children) + [node]
      ensures old(stk) != null ==> old(stk).kind == old(stk.kind) && old(stk).items == old(stk.items)
      ensures node.kind == ArrayNode(if withSize then a.Length else -1)
      ensures node.items == if compressLevel > 0 then Compress(a[..]) else Uncompressed(a[..])
    {
      var top: SqlStructure := PushStack();
      node := top;
      top.SetKind(ArrayNode(if withSize then a.Length else -1));
      if compressLevel > 0 {
        WriteArrayCompress(a, top);
      } else {
        WriteArrayNoncompress(a, top);
      }
      var _ := PopStack();
    }

    /** The compressed reader's loop: run by run, each run's prefix checked
        against the next index and the array size; a bad prefix sets the
        error flag and stops the read, leaving the rest of the array as it
        was. */
    method ReadArrayCompress(a: array<int>)
      requires hasData
      modifies a, this`pos, this`errorFlag
      ensures var r := ReadCompressedFrom(a.Length, ignoreVerification, ReadState([], old(CursorOf())));
              && a[..|r.filled|] == r.filled
              && a[|r.filled|..] == old(a[|r.filled|..])
              && CursorOf() == r.cursor
    {
      var n := a.Length;
      var indx := 0;
      assert a[..0] == [];
      ghost var target := ReadCompressedFrom(n, ignoreVerification, ReadState([], CursorOf()));
      while indx < n
        invariant 0 <= indx <= n
        invariant ReadCompressedFrom(n, ignoreVerification, ReadState(a[..indx], CursorOf())) == target
        invariant forall k :: indx <= k < n ==> a[k] == old(a[k])
      {
        var next, stop := ReadRun(a, indx);
        if stop {
          break;
        }
        indx := next;
      }
      assert target == ReadState(a[..indx], CursorOf());
      assert a[indx..] == old(a[indx..]);
    }

    /** One pass of the compressed reader's loop at index indx. A missing or
        bad prefix sets the error flag and asks the loop to stop, with the
        array untouched. Otherwise the run's value is read into a[indx] and
        copied through the prefix's last index, and the next index to fill
        is returned. Either way the reader's specification continues from
        the new state. */
    method ReadRun(a: array<int>, indx: nat) returns (next: nat, stop: bool)
      requires hasData && indx < a.Length
      modifies a, this`pos, this`errorFlag
      ensures stop ==> next == indx && a[..] == old(a[..])
                       && ReadCompressedFrom(a.Length, ignoreVerification, ReadState(old(a[..indx]), old(CursorOf())))
                          == ReadState(a[..indx], CursorOf())
      ensures !stop ==> indx < next <= a.Length
                        && (forall k :: next <= k < a.Length ==> a[k] == old(a[k]))
                        && ReadCompressedFrom(a.Length, ignoreVerification, ReadState(old(a[..indx]), old(CursorOf())))
                           == ReadCompressedFrom(a.Length, ignoreVerification, ReadState(a[..next], CursorOf()))
    {
      if pos >= |values| {
        errorFlag := 1;
        return indx, true;
      }
      var (first, last) := Bounds(values[pos].prefix);
      if first != indx || last < first || last >= a.Length {
        errorFlag := 1;
        return indx, true;
      }
      ghost var before := a[..indx];
      ReadCompressedStep(a.Length, ignoreVerification, ReadState(before, CursorOf()));
      var x := SqlReadBasicInt();
      a[indx] := x;
      next := CopyRun(a, first, last);
      stop := false;
      assert a[..next] == before + seq(last - first + 1, _ => x);
    }

    /** Copies the element at first through index last, as the compressed
        reader does after reading a run's value; returns the next index. */
    method CopyRun(a: array<int>, first: int, last: int) returns (indx: int)
      requires 0 <= first <= last < a.Length
      modifies a
      ensures indx == last + 1
      ensures a[..first + 1] == old(a[..first + 1])
      ensures forall k :: first <= k <= last ==> a[k] == old(a[first])
      ensures forall k :: last < k < a.Length ==> a[k] == old(a[k])
    {
      indx := first + 1;
      while indx <= last
        invariant first < indx <= last + 1
        invariant a[..first + 1] == old(a[..first + 1])
        invariant forall k :: first <= k < indx ==> a[k] == old(a[first])
        invariant forall k :: indx <= k < a.Length ==> a[k] == old(a[k])
      {
        a[indx] := a[first];
        indx := indx + 1;
      }
    }

    /** The uncompressed reader's loop: one integer read per element. */
    method ReadArrayUncompress(a: array<int>)
      requires hasData
      modifies a, this`pos, this`errorFlag
      ensures var r := ReadUncompressedFrom(a.Length, ignoreVerification, ReadState([], old(CursorOf())));
              a[..] == r.filled && CursorOf() == r.cursor
    {
      var n := a.Length;
      var indx := 0;
      assert a[..0] == [];
      ghost var target := ReadUncompressedFrom(n, ignoreVerification, ReadState([], CursorOf()));
      while indx < n
        invariant 0 <= indx <= n
        invariant ReadUncompressedFrom(n, ignoreVerification, ReadState(a[..indx], CursorOf())) == target
      {
        ghost var before := a[..indx];
        var x := SqlReadBasicInt();
        a[indx] := x;
        indx := indx + 1;
        assert a[..indx] == before + [x];
      }
      assert a[..n] == a[..];
    }

    /** Reads the content of an integer array under a new array node: blob
        data with the compressed reader, other data with the uncompressed one. */
    method ReadArrayContent(a: array<int>, withSize: bool) returns (ghost node: SqlStructure)
      requires StackValid() && hasData
      modifies this`stk, this`chain, this`structure, stk, this`pos, this`errorFlag, a
      ensures StackValid() && stk == old(stk) && chain == old(chain)
      ensures fresh(node) && node.parent == old(stk) && node.kind == ArrayNode(if withSize then a.Length else -1)
      ensures structure == if old(stk) == null then node else old(structure)
      ensures old(stk) != null ==> old(stk).children == old(stk.children) + [node]
      ensures old(stk) != null ==> old(stk).kind == old(stk.kind) && old(stk).items == old(stk.items)
      ensures var r := ReadArray(a.Length, isBlob, ignoreVerification, old(CursorOf()));
              && a[..|r.filled|] == r.filled
              && a[|r.filled|..] == old(a[|r.filled|..])
              && CursorOf() == r.cursor
    {
      var top: SqlStructure := PushStack();
      node := top;
      top.SetKind(ArrayNode(if withSize then a.Length else -1));
      if isBlob {
        ReadArrayCompress(a);
      } else {
        ReadArrayUncompress(a);
      }
      var _ := PopStack();
    }

    /** Looks up the class name and version stored for an object id: first
        at the position the id's distance from the first id suggests, then,
        if the entry there has another id, by a scan for the first entry with
        that id. Nothing is found for a negative id or when no descriptions
        were loaded. */
    method SqlObjectInfo(objid: int) returns (r: Option<ObjectInfo>)
      ensures r.Some? <==> objid >= 0 && objectsInfos.Some?
                           && exists k :: 0 <= k < |objectsInfos.value| && objectsInfos.value[k].objId == objid
      ensures r.Some? ==> r.value.objId == objid
                          && exists k :: 0 <= k < |objectsInfos.value| && objectsInfos.value[k] == r.value
                                         && (k == objid - firstObjId
                                             || forall j :: 0 <= j < k ==> objectsInfos.value[j].objId != objid)
      ensures objid >= 0 && objectsInfos.Some? && 0 <= objid - firstObjId < |objectsInfos.value|
              && objectsInfos.value[objid - firstObjId].objId == objid ==>
                r == Some(objectsInfos.value[objid - firstObjId])
    {
      if objid < 0 || objectsInfos.None? {
        return None;
      }
      var infos := objectsInfos.value;
      var shift := objid - firstObjId;
      r := None;
      if 0 <= shift < |infos| && infos[shift].objId == objid {
        r := Some(infos[shift]);
      }
      if r.None? {
        var n := 0;
        while n < |infos| && infos[n].objId != objid
          invariant 0 <= n <= |infos|
          invariant forall j :: 0 <= j < n ==> infos[j].objId != objid
        {
          n := n + 1;
        }
        if n < |infos| {
          r := Some(infos[n]);
        }
      }
    }
  }
}
