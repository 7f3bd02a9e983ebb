/**
 Slash-separated paths as byte strings, and the lexical normalisation that the
 VFS, the namespace layer and the storage driver each perform.

 A normalised path is `Absolute(names)` for a list of plain names; splitting it
 gives the names back, so normalised paths and lists of plain names correspond
 one to one.
 */
module Paths {
  import opened Machine

  type Bytes = seq<Byte>

  const SLASH: Byte := 47
  const DOT: Byte := 46
  const HERE: Bytes := [DOT]
  const UP: Bytes := [DOT, DOT]
  const ROOT: Bytes := [SLASH]

  // ---------------------------------------------------------------- splitting and joining

  /** The index of the first slash, or the length when there is none. */
  function FirstSlash(p: Bytes): (k: nat)
    ensures k <= |p| && SLASH !in p[..k]
    ensures k < |p| ==> p[k] == SLASH
  {
    if p == [] || p[0] == SLASH then 0
    else
      var k := 1 + FirstSlash(p[1..]);
      assert p[..k] == [p[0]] + p[1..][..k - 1];
      k
  }

  /** `split('/')`: the pieces between slashes, empty ones included. */
  function Split(p: Bytes): seq<Bytes>
    decreases |p|
  {
    var k := FirstSlash(p);
    if k == |p| then [p] else [p[..k]] + Split(p[k + 1..])
  }

  /** `split('/')` without the empty pieces. */
  function Parts(p: Bytes): seq<Bytes> { NonEmpty(Split(p)) }

  function NonEmpty(parts: seq<Bytes>): seq<Bytes> {
    if parts == [] then []
    else (if parts[0] == [] then [] else [parts[0]]) + NonEmpty(parts[1..])
  }

  /** Each name after a slash. */
  function Render(names: seq<Bytes>): Bytes {
    if names == [] then [] else [SLASH] + names[0] + Render(names[1..])
  }

  /** The absolute path with these names; just a slash when there are none. */
  function Absolute(names: seq<Bytes>): Bytes { if names == [] then ROOT else Render(names) }

  predicate IsName(b: Bytes) { b != [] && SLASH !in b }

  /** A name that does not stand for the current or the parent directory. */
  predicate IsPlainName(b: Bytes) { IsName(b) && b != HERE && b != UP }

  predicate AllNames(names: seq<Bytes>) { forall i :: 0 <= i < |names| ==> IsName(names[i]) }

  predicate AllPlain(names: seq<Bytes>) { forall i :: 0 <= i < |names| ==> IsPlainName(names[i]) }

  // ---------------------------------------------------------------- normalising

  /** Drops empty pieces and `.`, lets `..` remove the last name, and keeps the rest. */
  function Reduce(stack: seq<Bytes>, parts: seq<Bytes>): seq<Bytes>
    decreases |parts|
  {
    if parts == [] then stack
    else if parts[0] == [] || parts[0] == HERE then Reduce(stack, parts[1..])
    else if parts[0] == UP then Reduce(if stack == [] then stack else stack[..|stack| - 1], parts[1..])
    else Reduce(stack + [parts[0]], parts[1..])
  }

  function Names(p: Bytes): seq<Bytes> { Reduce([], Split(p)) }

  function Normal(p: Bytes): Bytes { Absolute(Names(p)) }

  ghost predicate IsNormal(p: Bytes) { exists names :: AllPlain(names) && p == Absolute(names) }

  /** The loop that all three normalisers run over the pieces of a path. */
  method ReducePieces(stack: seq<Bytes>, pieces: seq<Bytes>) returns (names: seq<Bytes>)
    ensures names == Reduce(stack, pieces)
  {
    names := stack;
    for i := 0 to |pieces|
      invariant Reduce(stack, pieces) == Reduce(names, pieces[i..])
    {
      ghost var left := pieces[i..];
      assert left[0] == pieces[i] && left[1..] == pieces[i + 1..];
      if pieces[i] == [] || pieces[i] == HERE { continue; }
      if pieces[i] == UP {
        if names != [] { names := names[..|names| - 1]; }
        continue;
      }
      names := names + [pieces[i]];
    }
    assert pieces[|pieces|..] == [];
  }

  // ---------------------------------------------------------------- laws

  lemma NoSlash(p: Bytes)
    requires SLASH !in p
    ensures FirstSlash(p) == |p| && Split(p) == [p]
  {
  }

  lemma {:induction false} SplitUnfold(p: Bytes)
    ensures var k := FirstSlash(p);
            && (k == |p| ==> Split(p) == [p])
            && (k < |p| ==> p[k] == SLASH && Split(p) == [p[..k]] + Split(p[k + 1..]))
  {
    hide FirstSlash;
  }

  lemma {:induction false} SplitJoin(x: Bytes, y: Bytes)
    ensures Split(x + [SLASH] + y) == Split(x) + Split(y)
    decreases |x|
  {
    var p, k := x + [SLASH] + y, FirstSlash(x);
    FirstSlashJoin(x, y);
    SplitUnfold(p);
    SplitUnfold(x);
    hide FirstSlash, Split;
    if k == |x| {
      assert p[..k] == x && p[k + 1..] == y;
    } else {
      var rest := x[k + 1..];
      assert p[..k] == x[..k] && p[k + 1..] == rest + [SLASH] + y;
      SplitJoin(rest, y);
      calc {
        Split(p);
        [x[..k]] + (Split(rest) + Split(y));
        ([x[..k]] + Split(rest)) + Split(y);
        Split(x) + Split(y);
      }
    }
  }

  lemma {:induction false} FirstSlashJoin(x: Bytes, y: Bytes)
    ensures FirstSlash(x + [SLASH] + y) == FirstSlash(x)
    decreases |x|
  {
    if x != [] && x[0] != SLASH {
      assert (x + [SLASH] + y)[1..] == x[1..] + [SLASH] + y;
      FirstSlashJoin(x[1..], y);
    }
  }

  lemma {:induction false} SplitPieces(p: Bytes)
    ensures |Split(p)| > 0 && forall i :: 0 <= i < |Split(p)| ==> SLASH !in Split(p)[i]
    decreases |p|
  {
    var k := FirstSlash(p);
    if k < |p| { SplitPieces(p[k + 1..]); }
  }

  lemma {:induction false} AfterSlash(y: Bytes)
    ensures Split([SLASH] + y) == [[]] + Split(y)
  {
    hide Split, FirstSlash;
    assert [SLASH] + y == [] + [SLASH] + y;
    SplitJoin([], y);
    NoSlash([]);
  }

  /** Splitting a rendered list gives an empty piece and the names back. */
  lemma {:induction false} SplitRender(names: seq<Bytes>)
    requires AllNames(names)
    ensures Split(Render(names)) == [[]] + names
  {
    if names == [] {
      NoSlash([]);
      assert [[]] + names == [[]];
    } else {
      var first, rest := names[0], Render(names[1..]);
      SplitRender(names[1..]);
      NoSlash(first);
      assert Render(names) == [SLASH] + (first + rest);
      AfterSlash(first + rest);
      assert Split(first + rest) == names by { SplitFirst(names); }
    }
  }

  lemma {:induction false} SplitFirst(names: seq<Bytes>)
    requires AllNames(names) && names != []
    requires Split(Render(names[1..])) == [[]] + names[1..]
    ensures Split(names[0] + Render(names[1..])) == names
  {
    var first, rest := names[0], Render(names[1..]);
    NoSlash(first);
    if names[1..] == [] {
      assert rest == [];
      hide Split, Render;
      assert first + rest == first && names == [first];
    } else {
      var tail := names[1] + Render(names[2..]);
      assert names[1..][1..] == names[2..];
      assert rest == [SLASH] + tail;
      hide Split, Render, FirstSlash;
      AfterSlash(tail);
      assert ([[]] + Split(tail))[1..] == Split(tail) && ([[]] + names[1..])[1..] == names[1..];
      assert first + rest == first + [SLASH] + tail;
      SplitJoin(first, tail);
    }
  }

  lemma {:induction false} NonEmptyNames(names: seq<Bytes>)
    requires AllNames(names)
    ensures NonEmpty(names) == names
  {
    if names != [] { NonEmptyNames(names[1..]); }
  }

  lemma {:induction false} NonEmptyAppend(a: seq<Bytes>, b: seq<Bytes>)
    ensures NonEmpty(a + b) == NonEmpty(a) + NonEmpty(b)
  {
    if a == [] {
      assert a + b == b;
    } else {
      assert (a + b)[1..] == a[1..] + b;
      NonEmptyAppend(a[1..], b);
    }
  }

  /** The parts of an absolute path are its names. */
  lemma PartsOfAbsolute(names: seq<Bytes>)
    requires AllNames(names)
    ensures Parts(Absolute(names)) == names
  {
    if names == [] {
      assert ROOT == [SLASH] + [];
      AfterSlash([]);
      NoSlash([]);
      var empties: seq<Bytes> := [[], []];
      assert Split(ROOT) == empties && NonEmpty(empties[1..][1..]) == [];
    } else {
      SplitRender(names);
      NonEmptyNames(names);
      assert ([[]] + names)[1..] == names;
    }
  }

  /** Normalised paths determine their names. */
  lemma AbsoluteInjective(a: seq<Bytes>, b: seq<Bytes>)
    requires AllNames(a) && AllNames(b) && Absolute(a) == Absolute(b)
    ensures a == b
  {
    PartsOfAbsolute(a);
    PartsOfAbsolute(b);
  }

  lemma {:induction false} ReduceSkipsEmpty(stack: seq<Bytes>, parts: seq<Bytes>)
    ensures Reduce(stack, parts) == Reduce(stack, NonEmpty(parts))
    decreases |parts|
  {
    if parts != [] {
      var rest := NonEmpty(parts[1..]);
      if parts[0] == [] {
        ReduceSkipsEmpty(stack, parts[1..]);
        assert NonEmpty(parts) == rest;
      } else {
        assert NonEmpty(parts)[0] == parts[0] && NonEmpty(parts)[1..] == rest;
        ReduceSkipsEmpty(stack, parts[1..]);
        ReduceSkipsEmpty(stack + [parts[0]], parts[1..]);
        if stack != [] { ReduceSkipsEmpty(stack[..|stack| - 1], parts[1..]); }
      }
    }
  }

  /** Reducing plain names just appends them. */
  lemma {:induction false} ReducePlain(stack: seq<Bytes>, names: seq<Bytes>)
    requires AllPlain(names)
    ensures Reduce(stack, names) == stack + names
    decreases |names|
  {
    if names != [] {
      ReducePlain(stack + [names[0]], names[1..]);
      assert stack + [names[0]] + names[1..] == stack + names;
    }
  }

  lemma {:induction false} ReduceAppend(stack: seq<Bytes>, a: seq<Bytes>, b: seq<Bytes>)
    ensures Reduce(stack, a + b) == Reduce(Reduce(stack, a), b)
    decreases |a|
  {
    if a == [] {
      assert a + b == b;
    } else {
      assert (a + b)[0] == a[0] && (a + b)[1..] == a[1..] + b;
      ReduceAppend(stack, a[1..], b);
      ReduceAppend(stack + [a[0]], a[1..], b);
      if stack != [] { ReduceAppend(stack[..|stack| - 1], a[1..], b); }
    }
  }

  /** Reduction leaves only plain names. */
  lemma {:induction false} ReduceIsPlain(stack: seq<Bytes>, parts: seq<Bytes>)
    requires AllPlain(stack)
    requires forall i :: 0 <= i < |parts| ==> SLASH !in parts[i]
    ensures AllPlain(Reduce(stack, parts))
    decreases |parts|
  {
    if parts != [] {
      var rest := parts[1..];
      if parts[0] == [] || parts[0] == HERE {
        ReduceIsPlain(stack, rest);
      } else if parts[0] == UP {
        ReduceIsPlain(if stack == [] then stack else stack[..|stack| - 1], rest);
      } else {
        ReduceIsPlain(stack + [parts[0]], rest);
      }
    }
  }

  lemma NamesArePlain(p: Bytes)
    ensures AllPlain(Names(p)) && IsNormal(Normal(p))
  {
    SplitPieces(p);
    ReduceIsPlain([], Split(p));
  }

  /** The names of a normalised path are the names it was made of. */
  lemma NamesOfAbsolute(names: seq<Bytes>)
    requires AllPlain(names)
    ensures Names(Absolute(names)) == names
  {
    PartsOfAbsolute(names);
    ReduceSkipsEmpty([], Split(Absolute(names)));
    ReducePlain([], names);
  }

  /** Normalisation is idempotent. */
  lemma NormalIdempotent(p: Bytes)
    ensures Normal(Normal(p)) == Normal(p)
  {
    NamesArePlain(p);
    NamesOfAbsolute(Names(p));
  }

  /** A leading slash makes no difference to normalisation. */
  lemma LeadingSlash(p: Bytes)
    ensures Names([SLASH] + p) == Names(p)
  {
    AfterSlash(p);
    assert ([[]] + Split(p))[1..] == Split(p);
  }

  // ---------------------------------------------------------------- containment

  /** Whether the bytes of `path` extend those of `dir` by nothing or by a slash and more. */
  predicate ExtendsBySlash(dir: Bytes, path: Bytes) {
    |path| >= |dir| && path[..|dir|] == dir && (|path| == |dir| || path[|dir|] == SLASH)
  }

  lemma {:induction false} RenderAppend(a: seq<Bytes>, b: seq<Bytes>)
    ensures Render(a + b) == Render(a) + Render(b)
  {
    if a == [] {
      assert a + b == b;
    } else {
      assert (a + b)[0] == a[0] && (a + b)[1..] == a[1..] + b;
      RenderAppend(a[1..], b);
    }
  }

  /** The byte test for "at or below" agrees with the names: one list is a prefix of the other. */
  lemma ExtendsMeansPrefix(a: seq<Bytes>, b: seq<Bytes>)
    requires AllNames(a) && AllNames(b) && a != []
    ensures ExtendsBySlash(Absolute(a), Absolute(b)) <==> a <= b
  {
    if a <= b { PrefixExtends(a, b[|a|..]); assert a + b[|a|..] == b; }
    if ExtendsBySlash(Absolute(a), Absolute(b)) { ExtendsIsPrefix(a, b); }
  }

  lemma PrefixExtends(a: seq<Bytes>, c: seq<Bytes>)
    requires a != []
    ensures ExtendsBySlash(Absolute(a), Absolute(a + c)) && Absolute(a + c) == Absolute(a) + Render(c)
  {
    RenderAppend(a, c);
    if c != [] { assert Render(c)[0] == SLASH; }
  }

  lemma AbsoluteLength(a: seq<Bytes>)
    requires AllNames(a)
    ensures if a == [] then |Absolute(a)| == 1 else Absolute(a) == Render(a) && |Absolute(a)| >= 2
  {
    if a != [] { assert IsName(a[0]); }
  }

  lemma ExtendsIsPrefix(a: seq<Bytes>, b: seq<Bytes>)
    requires AllNames(a) && AllNames(b) && a != []
    requires ExtendsBySlash(Absolute(a), Absolute(b))
    ensures a <= b
  {
    AbsoluteLength(a);
    AbsoluteLength(b);
    SplitRender(a);
    SplitRender(b);
    hide Split, Render, Absolute, IsName;
    var dir, path := Absolute(a), Absolute(b);
    if |path| == |dir| {
      assert path == dir;
      AbsoluteInjective(a, b);
    } else {
      var y := path[|dir| + 1..];
      CutAt(path, dir);
      SplitJoin(dir, y);
      DropFirst([], a, b, Split(y));
    }
  }

  lemma CutAt(path: Bytes, dir: Bytes)
    requires ExtendsBySlash(dir, path) && |path| > |dir|
    ensures path == dir + [SLASH] + path[|dir| + 1..]
  {
  }

  lemma DropFirst<T>(x: T, a: seq<T>, b: seq<T>, c: seq<T>)
    requires [x] + b == ([x] + a) + c
    ensures b == a + c
  {
    assert b == ([x] + b)[1..];
    assert (([x] + a) + c)[1..] == a + c;
  }
}
