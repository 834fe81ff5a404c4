/** The namespace-list tokenizer, which cuts a copy of the list in place, and the lists it reads back. */
module Namespaces {
  import opened CLib

  // ---- What a list registers -------------------------------------------------------------------------------

  /** The first place of `c` in `s`. */
  function IndexOf(s: string, c: char): (r: Option<nat>)
    ensures r.Some? ==> r.value < |s| && s[r.value] == c && forall j :: 0 <= j < r.value ==> s[j] != c
    ensures r == None <==> c !in s
  {
    if s == "" then None
    else if s[0] == c then Some(0)
    else
      match IndexOf(s[1..], c)
      case None => None
      case Some(k) => Some(k + 1)
  }

  function SkipSpaces(s: string): (t: string)
    ensures |t| <= |s|
  {
    if s != "" && s[0] == ' ' then SkipSpaces(s[1..]) else s
  }

  datatype Ns = Ns(prefix: string, href: string)

  /** The href that starts `rest` ends at the first space, or with the list. */
  function Href(rest: string): (h: string)
    ensures |h| <= |rest|
  {
    match IndexOf(rest, ' ')
    case None => rest
    case Some(m) => rest[..m]
  }

  function AfterHref(rest: string): (t: string)
    ensures |t| <= |rest|
  {
    match IndexOf(rest, ' ')
    case None => ""
    case Some(m) => rest[m + 1..]
  }

  /** The pair that starts `t`, which has an `=`, and what follows it. */
  function FirstPair(t: string): Ns
    requires '=' in t
  {
    var k := IndexOf(t, '=').value;
    Ns(t[..k], Href(t[k + 1..]))
  }

  function AfterPair(t: string): (rest: string)
    requires '=' in t
    ensures |rest| < |t|
  {
    AfterHref(t[IndexOf(t, '=').value + 1..])
  }

  /** The pairs registered in order, and the return value: an error ends the list where it is. */
  function Registered(s: string): (seq<Ns>, int)
    decreases |s|
  {
    var t := SkipSpaces(s);
    if t == "" then ([], 0)
    else if '=' !in t || FirstPair(t).prefix == "" then ([], -1)
    else
      var more := Registered(AfterPair(t));
      ([FirstPair(t)] + more.0, more.1)
  }

  // ---- The tokenizer -----------------------------------------------------------------------------------------

  /** The XPath context; registering an empty prefix fails. */
  class XPathContext {
    var names: seq<Ns>

    method RegisterNs(prefix: string, href: string) returns (r: int)
      modifies this
      ensures r == if prefix == "" then -1 else 0
      ensures names == if prefix == "" then old(names) else old(names) + [Ns(prefix, href)]
    {
      if prefix == "" {
        return -1;
      }
      names := names + [Ns(prefix, href)];
      return 0;
    }
  }

  const NULL: int := -1

  /** The C string that starts at `i` of a buffer. */
  predicate StringAt(dup: string, i: int, s: string) {
    && 0 <= i && i + |s| < |dup| && NUL !in s
    && dup[i + |s|] == NUL && forall k :: 0 <= k < |s| ==> dup[i + k] == s[k]
  }

  lemma ReadAt(dup: string, i: int, s: string)
    requires StringAt(dup, i, s)
    ensures CStr(dup[i..]) == s
  {
    assert dup[i..] == s + dup[i + |s|..];
    CStrOfTerminated(s, dup[i + |s|..]);
  }

  lemma InBounds(dup: string, i: int, s: string)
    requires StringAt(dup, i, s)
    ensures 0 <= i && i + |s| < |dup|
    ensures dup[i] == if s == "" then NUL else s[0]
    ensures s != "" ==> s[0] != NUL
  {
    assert s != "" ==> dup[i + 0] == s[0];
  }

  lemma DropAt(dup: string, i: int, s: string, n: nat)
    requires StringAt(dup, i, s) && n <= |s|
    ensures StringAt(dup, i + n, s[n..])
  {
    var t := s[n..];
    forall k | 0 <= k < |t| ensures dup[i + n + k] == t[k] {
      assert t[k] == s[n + k] && dup[i + (n + k)] == s[n + k];
    }
  }

  /** Writing the terminator cuts a string in two. */
  lemma CutAt(dup: string, i: int, s: string, n: nat)
    requires StringAt(dup, i, s) && n < |s|
    ensures var cut := dup[i + n := NUL]; StringAt(cut, i, s[..n]) && StringAt(cut, i + n + 1, s[n + 1..])
  {
    var cut := dup[i + n := NUL];
    DropAt(dup, i, s, n + 1);
    var t, u := s[..n], s[n + 1..];
    forall k | 0 <= k < |t| ensures cut[i + k] == t[k] {
      assert t[k] == s[k] && dup[i + k] == s[k];
    }
    forall k | 0 <= k < |u| ensures cut[i + n + 1 + k] == u[k] {
      assert dup[i + n + 1 + k] == u[k];
    }
  }

  /** A cut further on leaves an earlier string alone. */
  lemma KeptBefore(dup: string, i: int, s: string, j: int)
    requires StringAt(dup, i, s) && i + |s| < j < |dup|
    ensures StringAt(dup[j := NUL], i, s)
  {
  }

  method SkipSpacesAt(dup: array<char>, start: int, ghost s: string) returns (next: int)
    requires StringAt(dup[..], start, s)
    ensures StringAt(dup[..], next, SkipSpaces(s))
  {
    hide StringAt;
    next := start;
    ghost var t := s;
    InBounds(dup[..], next, t);
    while dup[next] == ' '
      invariant StringAt(dup[..], next, t) && SkipSpaces(t) == SkipSpaces(s)
      invariant 0 <= next < dup.Length && dup[next] == if t == "" then NUL else t[0]
      decreases |t|
    {
      DropAt(dup[..], next, t, 1);
      next := next + 1;
      t := t[1..];
      InBounds(dup[..], next, t);
    }
  }

  /** `xmlStrchr` in the string that starts at `i`. */
  method StrChr(dup: array<char>, i: int, c: char, ghost s: string) returns (j: int)
    requires StringAt(dup[..], i, s) && c != NUL
    ensures j == match IndexOf(s, c) case None => NULL case Some(k) => i + k
  {
    hide StringAt;
    j := i;
    ghost var t := s;
    InBounds(dup[..], j, t);
    while dup[j] != NUL
      invariant i <= j && j - i <= |s| && t == s[j - i..] && StringAt(dup[..], j, t)
      invariant 0 <= j < dup.Length && dup[j] == (if t == "" then NUL else t[0]) && (t != "" ==> t[0] != NUL)
      invariant forall k :: 0 <= k < j - i ==> s[k] != c
      decreases |t|
    {
      if dup[j] == c {
        return;
      }
      DropAt(dup[..], j, t, 1);
      j := j + 1;
      t := t[1..];
      InBounds(dup[..], j, t);
    }
    return NULL;
  }

  /** One `prefix=href` is cut out of the buffer at `start`; `NULL` for `next` says the list ended with it. */
  method CutPair(dup: array<char>, start: int, ghost t: string) returns (found: bool, prefix: int, href: int, next: int)
    requires StringAt(dup[..], start, t)
    modifies dup
    ensures found <==> '=' in t
    ensures found ==>
              && StringAt(dup[..], prefix, FirstPair(t).prefix) && StringAt(dup[..], href, FirstPair(t).href)
              && if next == NULL then AfterPair(t) == "" else StringAt(dup[..], next, AfterPair(t))
  {
    hide StringAt, IndexOf;
    prefix, href := start, NULL;
    InBounds(dup[..], start, t);
    next := StrChr(dup, start, '=', t);
    if next == NULL {
      return false, prefix, href, next;
    }
    ghost var k := next - start;
    ghost var rest := t[k + 1..];
    CutAt(dup[..], start, t, k);
    ghost var was := dup[..];
    dup[next] := NUL;
    assert dup[..] == was[start + k := NUL];
    next := next + 1;
    href := next;
    InBounds(dup[..], href, rest);
    next := StrChr(dup, next, ' ', rest);
    if next != NULL {
      ghost var m := next - href;
      CutAt(dup[..], href, rest, m);
      KeptBefore(dup[..], prefix, t[..k], next);
      was := dup[..];
      dup[next] := NUL;
      assert dup[..] == was[href + m := NUL];
      next := next + 1;
    }
    found := true;
  }

  method Duplicate(nsList: string) returns (dup: array<char>)
    requires NUL !in nsList
    ensures fresh(dup) && StringAt(dup[..], 0, nsList)
  {
    dup := new char[|nsList| + 1](k => if 0 <= k < |nsList| then nsList[k] else NUL);
  }

  lemma NothingToSkip()
    ensures SkipSpaces("") == ""
  {
  }

  lemma NothingLeft(s: string)
    requires SkipSpaces(s) == ""
    ensures Registered(s) == ([], 0)
  {
  }

  /** Reading the list one pair further. */
  lemma ReadPair(s: string)
    requires SkipSpaces(s) != ""
    ensures var t := SkipSpaces(s);
            if '=' !in t || FirstPair(t).prefix == "" then Registered(s) == ([], -1)
            else Registered(s) == ([FirstPair(t)] + Registered(AfterPair(t)).0, Registered(AfterPair(t)).1)
  {
    hide SkipSpaces, FirstPair, AfterPair;
  }

  /** The pair the buffer shows once it is cut. */
  method TakePair(dup: array<char>, start: int, ghost t: string) returns (found: bool, pair: Ns, next: int)
    requires StringAt(dup[..], start, t)
    modifies dup
    ensures found <==> '=' in t
    ensures found ==>
            pair == FirstPair(t) && if next == NULL then AfterPair(t) == "" else StringAt(dup[..], next, AfterPair(t))
  {
    hide StringAt, FirstPair, AfterPair, CStr;
    var prefix, href;
    found, prefix, href, next := CutPair(dup, start, t);
    pair := Ns("", "");
    if found {
      InBounds(dup[..], prefix, FirstPair(t).prefix);
      InBounds(dup[..], href, FirstPair(t).href);
      ReadAt(dup[..], prefix, FirstPair(t).prefix);
      ReadAt(dup[..], href, FirstPair(t).href);
      assert dup[prefix..] == dup[..][prefix..] && dup[href..] == dup[..][href..];
      pair := Ns(CStr(dup[prefix..]), CStr(dup[href..]));
    }
  }

  /** What is still to be registered once `done` pairs of `s` are: those of `rest`. */
  predicate Remaining(before: seq<Ns>, s: string, names: seq<Ns>, rest: string) {
    before + Registered(s).0 == names + Registered(rest).0 && Registered(s).1 == Registered(rest).1
  }

  /** The body of the loop: one pair, or the reason to stop. */
  method RegisterNext(ctx: XPathContext, dup: array<char>, start: int, ghost s: string)
    returns (stop: bool, r: int, next: int, ghost rest: string)
    requires StringAt(dup[..], start, s)
    modifies ctx, dup
    ensures stop ==> ctx.names == old(ctx.names) + Registered(s).0 && r == Registered(s).1
    ensures !stop ==> |rest| < |s| && Remaining(old(ctx.names), s, ctx.names, rest)
    ensures !stop ==> if next == NULL then rest == "" else StringAt(dup[..], next, rest)
  {
    hide StringAt, FirstPair, AfterPair, Registered;
    rest := "";
    next := SkipSpacesAt(dup, start, s);
    ghost var t := SkipSpaces(s);
    hide SkipSpaces;
    InBounds(dup[..], next, t);
    if dup[next] == NUL {
      NothingLeft(s);
      return true, 0, next, rest;
    }
    ReadPair(s);
    var pair, found;
    found, pair, next := TakePair(dup, next, t);
    if !found {
      return true, -1, next, rest;
    }
    rest := AfterPair(t);
    r := ctx.RegisterNs(pair.prefix, pair.href);
    stop := r != 0;
    assert !stop ==> old(ctx.names) + ([pair] + Registered(rest).0) == ctx.names + Registered(rest).0;
  }

  /**
   * `register_namespaces`. It stops on every list, and what it registers and returns is what the list,
   * read without cutting it, says.
   */
  method RegisterNamespaces(ctx: XPathContext, nsList: string) returns (r: int)
    requires NUL !in nsList
    modifies ctx
    ensures ctx.names == old(ctx.names) + Registered(nsList).0 && r == Registered(nsList).1
  {
    hide StringAt, Registered;
    var dup := Duplicate(nsList);
    var next: int := 0;
    ghost var s := nsList;
    while next != NULL
      invariant if next == NULL then s == "" else StringAt(dup[..], next, s)
      invariant Remaining(old(ctx.names), nsList, ctx.names, s)
      invariant fresh(dup)
      decreases |s|, next
    {
      var stop;
      stop, r, next, s := RegisterNext(ctx, dup, next, s);
      if stop {
        return;
      }
    }
    NothingToSkip();
    NothingLeft("");
    r := 0;
  }

  // ---- Lists that were printed -------------------------------------------------------------------------------

  /** A pair that can stand in a list. */
  predicate Listable(ns: Ns) {
    ns.prefix != "" && '=' !in ns.prefix && ns.prefix[0] != ' ' && ' ' !in ns.href
  }

  function Spaces(n: nat): (s: string)
    ensures |s| == n
  {
    if n == 0 then "" else " " + Spaces(n - 1)
  }

  /** A pair and the number of spaces before it. */
  datatype Spaced = Spaced(gap: nat, ns: Ns)

  /** All pairs are listable, and from the second on at least one space separates them. */
  predicate Separated(items: seq<Spaced>) {
    forall k :: 0 <= k < |items| ==> Listable(items[k].ns) && (k > 0 ==> items[k].gap > 0)
  }

  function PrintPair(ns: Ns): string { ns.prefix + ("=" + ns.href) }

  function PrintList(items: seq<Spaced>, trail: nat): string {
    if items == [] then Spaces(trail)
    else Spaces(items[0].gap) + (PrintPair(items[0].ns) + PrintList(items[1..], trail))
  }

  function NamesOf(items: seq<Spaced>): seq<Ns> {
    if items == [] then [] else [items[0].ns] + NamesOf(items[1..])
  }

  lemma {:induction false} SkipGap(gap: nat, body: string)
    requires body == "" || body[0] != ' '
    ensures SkipSpaces(Spaces(gap) + body) == body
  {
    if gap == 0 {
      assert Spaces(0) + body == body;
    } else {
      assert (Spaces(gap) + body)[1..] == Spaces(gap - 1) + body && (Spaces(gap) + body)[0] == ' ';
      SkipGap(gap - 1, body);
    }
  }

  lemma {:induction false} IndexIs(a: string, c: char, b: string)
    requires c !in a
    ensures IndexOf(a + [c] + b, c) == Some(|a|)
  {
    if a != "" {
      assert (a + [c] + b)[1..] == a[1..] + [c] + b;
      IndexIs(a[1..], c, b);
    }
  }

  /** A leading space makes no difference. */
  lemma LeadingSpace(s: string)
    ensures Registered(" " + s) == Registered(s)
  {
    assert (" " + s)[1..] == s;
    assert SkipSpaces(" " + s) == SkipSpaces(s);
  }

  lemma HrefOf(href: string, tail: string)
    requires ' ' !in href && (tail == "" || tail[0] == ' ')
    ensures Href(href + tail) == href
    ensures Registered(AfterHref(href + tail)) == Registered(tail)
  {
    if tail == "" {
      assert href + tail == href;
    } else {
      assert href + tail == href + [' '] + tail[1..];
      IndexIs(href, ' ', tail[1..]);
      assert tail == " " + tail[1..];
      LeadingSpace(tail[1..]);
    }
  }

  lemma PairThenTail(ns: Ns, tail: string)
    requires Listable(ns) && (tail == "" || tail[0] == ' ')
    ensures var body := PrintPair(ns) + tail;
            && body != "" && body[0] != ' ' && '=' in body
            && FirstPair(body) == ns && Registered(AfterPair(body)) == Registered(tail)
  {
    var body := PrintPair(ns) + tail;
    assert body == ns.prefix + ['='] + (ns.href + tail);
    IndexIs(ns.prefix, '=', ns.href + tail);
    assert body[|ns.prefix|] == '=';
    assert body[..|ns.prefix|] == ns.prefix && body[|ns.prefix| + 1..] == ns.href + tail;
    HrefOf(ns.href, tail);
    hide IndexOf, Href, AfterHref, Registered;
  }

  lemma ReadPrinted(ns: Ns, gap: nat, tail: string)
    requires Listable(ns) && (tail == "" || tail[0] == ' ')
    ensures Registered(Spaces(gap) + (PrintPair(ns) + tail)) == ([ns] + Registered(tail).0, Registered(tail).1)
  {
    hide SkipSpaces, FirstPair, AfterPair, Spaces, PrintPair, Registered;
    var body := PrintPair(ns) + tail;
    PairThenTail(ns, tail);
    SkipGap(gap, body);
    ReadPair(Spaces(gap) + body);
  }

  lemma TailStartsWithSpace(items: seq<Spaced>, trail: nat)
    requires items == [] || items[0].gap > 0
    ensures PrintList(items, trail) == "" || PrintList(items, trail)[0] == ' '
  {
  }

  /**
   * Whatever spaces come before, between (at least one) and after the pairs, exactly these pairs are
   * registered, in order, and the result is success.
   */
  lemma {:induction false} PrintedListIsRead(items: seq<Spaced>, trail: nat)
    requires Separated(items)
    ensures Registered(PrintList(items, trail)) == (NamesOf(items), 0)
  {
    if items == [] {
      SkipGap(trail, "");
      assert Spaces(trail) + "" == Spaces(trail);
      NothingLeft(Spaces(trail));
    } else {
      hide Registered, PrintPair;
      TailStartsWithSpace(items[1..], trail);
      PrintedListIsRead(items[1..], trail);
      ReadPrinted(items[0].ns, items[0].gap, PrintList(items[1..], trail));
    }
  }

  lemma {:induction false} NoSpaceLeft(s: string)
    ensures SkipSpaces(s) == "" || SkipSpaces(s)[0] != ' '
  {
    if s != "" && s[0] == ' ' {
      NoSpaceLeft(s[1..]);
    }
  }

  /** Only listable pairs are ever registered, whatever the list. */
  lemma {:induction false} RegisteredAreListable(s: string)
    ensures forall k :: 0 <= k < |Registered(s).0| ==> Listable(Registered(s).0[k])
    decreases |s|
  {
    var t := SkipSpaces(s);
    if t == "" {
      NothingLeft(s);
    } else {
      NoSpaceLeft(s);
      ReadPair(s);
      if '=' in t && FirstPair(t).prefix != "" {
        var k := IndexOf(t, '=').value;
        assert t[..k][0] == t[0];
        RegisteredAreListable(AfterPair(t));
        assert Listable(FirstPair(t));
        hide Registered, Listable, SkipSpaces, FirstPair, AfterPair;
      }
    }
  }

  /** So a pair on its own survives exactly when it is listable. */
  lemma PairSurvivesIff(ns: Ns, gap: nat, trail: nat)
    ensures Registered(PrintList([Spaced(gap, ns)], trail)) == ([ns], 0) <==> Listable(ns)
  {
    var items := [Spaced(gap, ns)];
    var read := Registered(PrintList(items, trail));
    RegisteredAreListable(PrintList(items, trail));
    assert forall p :: p in read.0 ==> Listable(p);
    assert ns in [ns];
    if Listable(ns) {
      PrintedListIsRead(items, trail);
      assert items[1..] == [];
      assert read.0 == [ns];
    }
  }
}
