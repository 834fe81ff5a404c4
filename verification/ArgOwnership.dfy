/** Who owns the argument strings: decoding allocates all of them or none, and each is freed once. */
module ArgOwnership {
  import opened CLib
  import opened Base64
  import opened XmlText
  import opened XmlRpc

  /** The allocator, as far as the argument strings go. Freeing a cell twice is not possible here. */
  class Heap {
    var cells: map<int, string>
    var next: int

    ghost predicate Valid()
      reads this
    {
      next > 0 && forall p :: p in cells ==> 0 < p < next
    }

    method Strdup(s: string) returns (p: int)
      requires Valid()
      modifies this
      ensures Valid() && p > 0 && p !in old(cells) && cells == old(cells)[p := s]
    {
      p := next;
      cells := cells[p := s];
      next := next + 1;
    }

    method Free(p: int)
      requires Valid() && p in cells
      modifies this
      ensures Valid() && cells == old(cells) - {p}
    {
      cells := cells - {p};
    }
  }

  const NULL: int := 0

  /** Beyond `base`, the cells are exactly those the non-null slots point to, each from one slot. */
  ghost predicate Owned(base: map<int, string>, cells: map<int, string>, slots: seq<int>) {
    && (forall p :: p in base ==> p in cells && cells[p] == base[p])
    && (forall k :: 0 <= k < |slots| && slots[k] != NULL ==> slots[k] in cells && slots[k] !in base)
    && (forall j, k :: 0 <= j < k < |slots| && slots[j] != NULL ==> slots[j] != slots[k])
    && (forall p :: p in cells && p !in base ==> p in slots && p != NULL)
  }

  /** ... and the slots hold `args`, in order. */
  ghost predicate Loaded(base: map<int, string>, cells: map<int, string>, slots: seq<int>, args: seq<string>) {
    && Owned(base, cells, slots)
    && |slots| == |args|
    && forall k :: 0 <= k < |slots| ==> slots[k] != NULL && slots[k] in cells && cells[slots[k]] == args[k]
  }

  lemma LoadOne(base: map<int, string>, cells: map<int, string>, slots: seq<int>, args: seq<string>, p: int, s: string)
    requires Loaded(base, cells, slots, args) && p !in cells && p != NULL
    ensures Loaded(base, cells[p := s], slots + [p], args + [s])
  {
    var more := slots + [p];
    assert forall q :: q in slots ==> q in more;
    assert more[|slots|] == p;
  }

  lemma FreeOne(base: map<int, string>, cells: map<int, string>, slots: seq<int>, k: nat)
    requires Owned(base, cells, slots) && k < |slots| && slots[k] != NULL
    ensures Owned(base, cells - {slots[k]}, slots[k := NULL])
  {
    var less := slots[k := NULL];
    forall p | p in cells - {slots[k]} && p !in base ensures p in less && p != NULL {
      var j :| 0 <= j < |slots| && slots[j] == p;
      assert less[j] == p;
    }
  }

  lemma NothingOwned(base: map<int, string>, cells: map<int, string>, slots: seq<int>)
    requires Owned(base, cells, slots) && forall k :: 0 <= k < |slots| ==> slots[k] == NULL
    ensures cells == base
  {
    forall p | p in cells ensures p in base && cells[p] == base[p] {
      assert p !in base ==> p in slots && p != NULL;
    }
    forall p | p in base ensures p in cells {}
    assert cells.Keys == base.Keys;
    assert cells == map p | p in cells :: cells[p];
    assert base == map p | p in cells :: cells[p];
  }

  /** The loop that `xmlrpc_to_args`, `StartApp` and `serviceRequest` share: free what is there, leave NULL. */
  method FreeAll(heap: Heap, av: array<int>, n: nat, ghost base: map<int, string>)
    requires heap.Valid() && n <= av.Length && Owned(base, heap.cells, av[..n])
    modifies heap, av
    ensures heap.Valid() && heap.cells == base
    ensures forall k :: 0 <= k < n ==> av[k] == NULL
    ensures av[n..] == old(av[n..])
  {
    var i := 0;
    while i < n
      invariant 0 <= i <= n
      invariant heap.Valid() && Owned(base, heap.cells, av[..n])
      invariant forall k :: 0 <= k < i ==> av[k] == NULL
      invariant av[n..] == old(av[n..])
    {
      if av[i] != NULL {
        FreeOne(base, heap.cells, av[..n], i);
        heap.Free(av[i]);
        ghost var cleared := av[..n][i := NULL];
        av[i] := NULL;
        assert av[..n] == cleared;
      }
      i := i + 1;
    }
    NothingOwned(base, heap.cells, av[..n]);
  }

  // ---- Decoding a call --------------------------------------------------------------------------------

  /** How many parameters a document carries; the caller's array must have room for them. */
  function CountParams(p: Forest): nat {
    match p
    case End => 0
    case Text(_, next) => CountParams(next)
    case Elem(_, _, _, _, next) => 1 + CountParams(next)
  }

  function CountCall(cur: Forest): nat {
    match cur
    case End => 0
    case Text(_, next) => CountCall(next)
    case Elem(name, _, _, kids, next) => (if name == "params" then CountParams(kids) else 0) + CountCall(next)
  }

  function ArgCount(buf: string): nat {
    match ParseDoc(CStrN(buf))
    case None => 0
    case Some(root) => CountCall(root.kids)
  }

  /**
   * `xmlrpc_to_args`. Either every parameter decodes and the first slots own copies of them, or the
   * status is -1, the slots used are NULL again, nothing stays allocated and the caller's count is as it was.
   */
  method XmlrpcToArgs(heap: Heap, buf: string, pargs: array<int>, count: int)
    returns (status: int, pnargs: int, psz: Option<string>)
    requires heap.Valid() && ArgCount(buf) <= pargs.Length
    modifies heap, pargs
    ensures heap.Valid()
    ensures DecodeCall(buf).BadParam? ==> status == -1 && pnargs == count && heap.cells == old(heap.cells)
    ensures DecodeCall(buf).BadParam? ==>
            forall k :: 0 <= k < pargs.Length ==> pargs[k] == NULL || pargs[k] == old(pargs[k])
    ensures DecodeCall(buf).Call? ==>
              status == pnargs == |DecodeCall(buf).args| <= pargs.Length && psz == DecodeCall(buf).meth
              && Loaded(old(heap.cells), heap.cells, pargs[..pnargs], DecodeCall(buf).args)
  {
    hide ParseDoc, Content, Base64Decode, CStrN;
    psz := None;
    pnargs := count;
    ghost var base := heap.cells;
    if CStrN(buf) == "" {
      return 0, 0, Some("");
    }
    var doc := ParseDoc(CStrN(buf));
    if doc == None {
      return 0, 0, Some("");
    }
    var meth: Option<string> := None;
    var argCount := 0;
    ghost var args: seq<string> := [];
    var curNode := doc.value.kids;
    while curNode != End
      invariant WalkCall(curNode, meth, args) == WalkCall(doc.value.kids, None, [])
      invariant argCount + CountCall(curNode) <= pargs.Length
      invariant heap.Valid() && 0 <= argCount <= pargs.Length && Loaded(base, heap.cells, pargs[..argCount], args)
      invariant pargs[argCount..] == old(pargs[..])[argCount..]
      decreases curNode
    {
      if curNode.Elem? && curNode.name == "methodName" {
        meth := Some(Content(curNode.kids));
      } else if curNode.Elem? && curNode.name == "params" {
        var paramNode := curNode.kids;
        ghost var all := WalkParams(paramNode, args);
        while paramNode != End
          invariant WalkParams(paramNode, args) == all
          invariant argCount + CountParams(paramNode) + CountCall(curNode.next) <= pargs.Length
          invariant heap.Valid() && 0 <= argCount <= pargs.Length && Loaded(base, heap.cells, pargs[..argCount], args)
          invariant pargs[argCount..] == old(pargs[..])[argCount..]
          decreases paramNode
        {
          if !paramNode.Text? {
            var decoded := Base64Decode(Content(paramNode.kids));
            if decoded == None {
              FreeAll(heap, pargs, argCount, base);
              return -1, count, None;
            }
            ghost var slots := pargs[..argCount];
            ghost var before := heap.cells;
            var p := heap.Strdup(CStr(decoded.value));
            LoadOne(base, before, slots, args, p, CStr(decoded.value));
            pargs[argCount] := p;
            argCount := argCount + 1;
            assert pargs[..argCount] == slots + [p];
            args := args + [CStr(decoded.value)];
          }
          paramNode := paramNode.next;
        }
      }
      curNode := curNode.next;
    }
    return argCount, argCount, meth;
  }

  lemma {:induction false} CountParamsOf(args: seq<string>)
    requires AllCStrings(args)
    ensures CountParams(Params(args)) == |args|
  {
    hide Base64Encode;
    if args != [] {
      CountParamsOf(args[1..]);
    }
  }

  lemma CountCallOf(meth: string, args: seq<string>)
    requires AllCStrings(args)
    ensures CountCall(CallTree(meth, Params(args)).kids) == |args|
  {
    CountParamsOf(args);
    hide Params;
    var ps := Elem("params", [], Params(args) == End, Params(args), End);
    assert CallTree(meth, Params(args)).kids == NewChild("methodName", meth, ps);
    assert "params" != "methodName" by { assert |"params"| != |"methodName"|; }
    assert CountCall(ps) == |args|;
  }
}
