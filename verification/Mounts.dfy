/**
 The mount table of the namespace layer: canonical mount paths, longest-prefix
 resolution, and the split of a path into mount point and provider path.
 */
module Mounts {
  import opened Machine
  import opened Paths

  datatype MountPoint = MountPoint(path: Bytes, provider: nat, readOnly: bool)

  datatype MountError = InvalidPath | ProviderUnavailable | AlreadyExists | NotFound | Busy

  datatype EventType = Mounted | Unmounted

  datatype Event = Event(id: U64, kind: EventType, path: Bytes)

  datatype ResolvedPath = ResolvedPath(
    inputPath: Bytes, absolutePath: Bytes, providerPath: Bytes, mountPath: Bytes, provider: nat, readOnly: bool)

  // ---------------------------------------------------------------- resolution

  /** `path_in_mount`. */
  predicate PathInMount(mountPath: Bytes, path: Bytes) {
    mountPath == ROOT || path == mountPath || (|path| > |mountPath| && path[..|mountPath|] == mountPath && path[|mountPath|] == SLASH)
  }

  /** `provider_path_from_mount`. */
  function ProviderPath(mountPath: Bytes, absolutePath: Bytes): Bytes
    requires |mountPath| <= |absolutePath| || mountPath == ROOT || absolutePath == mountPath
  {
    if mountPath == ROOT then absolutePath
    else if absolutePath == mountPath then ROOT
    else
      var tail := absolutePath[|mountPath|..];
      if tail != [] && tail[0] == SLASH then tail else [SLASH] + tail
  }

  /** A canonical mount path covers a canonical path exactly when its names begin the path's names. */
  lemma InMountMeansPrefix(a: seq<Bytes>, b: seq<Bytes>)
    requires AllNames(a) && AllNames(b)
    ensures PathInMount(Absolute(a), Absolute(b)) <==> a <= b
  {
    if a != [] {
      AbsoluteLength(a);
      ExtendsMeansPrefix(a, b);
      hide Render, Absolute;
    }
  }

  /** The provider path is the canonical path of the names below the mount point. */
  lemma ProviderPathMeansRest(a: seq<Bytes>, b: seq<Bytes>)
    requires AllNames(a) && AllNames(b) && a <= b
    ensures a != [] ==> |Absolute(a)| <= |Absolute(b)|
    ensures ProviderPath(Absolute(a), Absolute(b)) == Absolute(b[|a|..])
  {
    var c := b[|a|..];
    assert a + c == b;
    if a == [] {
      assert c == b;
    } else {
      AbsoluteLength(a);
      PrefixExtends(a, c);
      if c == [] {
        assert a == b;
      } else {
        var tail := Absolute(b)[|Absolute(a)|..];
        assert tail == Render(c) && tail[0] == SLASH;
      }
    }
  }

  /** Puts a provider path back below its mount point. */
  function Rejoin(mountPath: Bytes, providerPath: Bytes): Bytes {
    if mountPath == ROOT then providerPath
    else if providerPath == ROOT then mountPath
    else mountPath + providerPath
  }

  /** Splitting a canonical path at a mount point and rejoining gives the path back. */
  lemma RejoinRebuilds(a: seq<Bytes>, b: seq<Bytes>)
    requires AllNames(a) && AllNames(b) && a <= b
    ensures |Absolute(a)| <= |Absolute(b)| || a == []
    ensures Rejoin(Absolute(a), ProviderPath(Absolute(a), Absolute(b))) == Absolute(b)
  {
    ProviderPathMeansRest(a, b);
    var c := b[|a|..];
    assert a + c == b;
    if a != [] {
      AbsoluteLength(a);
      PrefixExtends(a, c);
      if c != [] { AbsoluteLength(c); }
    }
  }

  /** The mount `m` is the longest one that covers `path`. */
  ghost predicate IsBest(mounts: seq<MountPoint>, path: Bytes, m: MountPoint) {
    && m in mounts && PathInMount(m.path, path)
    && (forall o :: o in mounts && PathInMount(o.path, path) ==> |o.path| <= |m.path|)
  }

  ghost predicate NoneCovers(mounts: seq<MountPoint>, path: Bytes) {
    forall m :: m in mounts ==> !PathInMount(m.path, path)
  }

  /** What every run of mounts and unmounts keeps: canonical, distinct mount paths, the root among them. */
  ghost predicate TableOk(mounts: seq<MountPoint>) {
    && (forall i :: 0 <= i < |mounts| ==> IsNormal(mounts[i].path))
    && (forall i, j :: 0 <= i < j < |mounts| ==> mounts[i].path != mounts[j].path)
    && (exists i :: 0 <= i < |mounts| && mounts[i].path == ROOT)
  }

  /** At most one mount is the longest, and the names of every other covering mount begin its names. */
  lemma BestIsUnique(mounts: seq<MountPoint>, names: seq<Bytes>, m: MountPoint, o: MountPoint)
    requires TableOk(mounts) && AllPlain(names)
    requires IsBest(mounts, Absolute(names), m) && o in mounts && PathInMount(o.path, Absolute(names))
    ensures Names(o.path) <= Names(m.path) <= names
    ensures IsBest(mounts, Absolute(names), o) ==> o == m
  {
    CoverIsPrefix(mounts, names, m);
    CoverIsPrefix(mounts, names, o);
    var a, c := Names(m.path), Names(o.path);
    if |c| > |a| {
      assert a <= c;
      LongerIsLonger(a, c);
    }
    if |o.path| == |m.path| {
      if |a| > |c| { assert c <= a; LongerIsLonger(c, a); }
      assert a == c && m.path == o.path;
    }
  }

  lemma CoverIsPrefix(mounts: seq<MountPoint>, names: seq<Bytes>, m: MountPoint)
    requires TableOk(mounts) && AllPlain(names) && m in mounts && PathInMount(m.path, Absolute(names))
    ensures AllPlain(Names(m.path)) && m.path == Absolute(Names(m.path)) && Names(m.path) <= names
  {
    var a :| AllPlain(a) && m.path == Absolute(a);
    NamesOfAbsolute(a);
    InMountMeansPrefix(a, names);
  }

  lemma LongerIsLonger(a: seq<Bytes>, c: seq<Bytes>)
    requires AllNames(a) && AllNames(c) && a <= c && |a| < |c|
    ensures |Absolute(a)| < |Absolute(c)|
  {
    var rest := c[|a|..];
    assert a + rest == c;
    AbsoluteLength(rest);
    if a == [] { AbsoluteLength(c); } else { PrefixExtends(a, rest); }
  }

  lemma NormalIsNonEmpty(path: Bytes)
    requires IsNormal(path)
    ensures path != []
  {
    var names :| AllPlain(names) && path == Absolute(names);
    AbsoluteLength(names);
  }

  /** Some mount covers every canonical path, because the root does. */
  lemma RootCovers(mounts: seq<MountPoint>, path: Bytes)
    requires TableOk(mounts)
    ensures !NoneCovers(mounts, path)
  {
    var i :| 0 <= i < |mounts| && mounts[i].path == ROOT;
    assert mounts[i] in mounts;
  }

  /** A new mount changes the answer only for paths at or below it. */
  lemma MountActsBelow(mounts: seq<MountPoint>, m: MountPoint, path: Bytes, best: MountPoint)
    requires IsBest(mounts, path, best)
    ensures !PathInMount(m.path, path) ==> IsBest(mounts + [m], path, best)
    ensures PathInMount(m.path, path) && |m.path| >= |best.path| ==> IsBest(mounts + [m], path, m)
    ensures PathInMount(m.path, path) && |m.path| <= |best.path| ==> IsBest(mounts + [m], path, best)
  {
    assert forall o :: o in mounts + [m] <==> o in mounts || o == m;
  }

  function Without(mounts: seq<MountPoint>, path: Bytes): seq<MountPoint> {
    if mounts == [] then []
    else (if mounts[0].path == path then [] else [mounts[0]]) + Without(mounts[1..], path)
  }

  lemma {:induction false} WithoutMembers(mounts: seq<MountPoint>, path: Bytes)
    ensures forall m :: m in Without(mounts, path) <==> m in mounts && m.path != path
    ensures |Without(mounts, path)| == |mounts| <==> forall m :: m in mounts ==> m.path != path
    ensures |Without(mounts, path)| <= |mounts|
  {
    if mounts != [] {
      WithoutMembers(mounts[1..], path);
      assert mounts[0] in mounts;
      assert forall m :: m in mounts <==> m == mounts[0] || m in mounts[1..];
    }
  }

  lemma {:induction false} WithoutAbsent(mounts: seq<MountPoint>, path: Bytes)
    requires forall i :: 0 <= i < |mounts| ==> mounts[i].path != path
    ensures Without(mounts, path) == mounts
  {
    if mounts != [] { WithoutAbsent(mounts[1..], path); }
  }

  lemma {:induction false} WithoutAppend(mounts: seq<MountPoint>, m: MountPoint, path: Bytes)
    ensures Without(mounts + [m], path) == Without(mounts, path) + (if m.path == path then [] else [m])
  {
    if mounts == [] {
      assert mounts + [m] == [m] && [m][1..] == [];
    } else {
      var head := if mounts[0].path == path then [] else [mounts[0]];
      var tail := if m.path == path then [] else [m];
      assert (mounts + [m])[1..] == mounts[1..] + [m];
      assert Without(mounts + [m], path) == head + Without(mounts[1..] + [m], path);
      assert Without(mounts, path) == head + Without(mounts[1..], path);
      hide Without;
      WithoutAppend(mounts[1..], m, path);
      assert head + (Without(mounts[1..], path) + tail) == (head + Without(mounts[1..], path)) + tail;
    }
  }

  lemma {:induction false} WithoutKeepsDistinct(mounts: seq<MountPoint>, path: Bytes)
    requires forall i, j :: 0 <= i < j < |mounts| ==> mounts[i].path != mounts[j].path
    ensures var w := Without(mounts, path); forall i, j :: 0 <= i < j < |w| ==> w[i].path != w[j].path
  {
    if mounts != [] {
      WithoutKeepsDistinct(mounts[1..], path);
      WithoutMembers(mounts[1..], path);
      var rest := Without(mounts[1..], path);
      forall j | 0 <= j < |rest| ensures rest[j].path != mounts[0].path {
        assert rest[j] in mounts[1..];
      }
    }
  }

  /** Mounting a new path and unmounting it restores the table, and with it every resolution. */
  lemma UnmountUndoesMount(mounts: seq<MountPoint>, m: MountPoint)
    requires forall i :: 0 <= i < |mounts| ==> mounts[i].path != m.path
    ensures Without(mounts + [m], m.path) == mounts
  {
    WithoutAppend(mounts, m, m.path);
    WithoutAbsent(mounts, m.path);
  }

  lemma MountKeepsTable(mounts: seq<MountPoint>, m: MountPoint)
    requires TableOk(mounts) && IsNormal(m.path) && forall o :: o in mounts ==> o.path != m.path
    ensures TableOk(mounts + [m])
  {
    var all := mounts + [m];
    var r :| 0 <= r < |mounts| && mounts[r].path == ROOT;
    assert all[r].path == ROOT;
    forall i, j | 0 <= i < j < |all| ensures all[i].path != all[j].path {
      assert all[i] in mounts;
    }
  }

  lemma UnmountKeepsTable(mounts: seq<MountPoint>, path: Bytes)
    requires TableOk(mounts) && path != ROOT
    ensures TableOk(Without(mounts, path))
  {
    WithoutMembers(mounts, path);
    WithoutKeepsDistinct(mounts, path);
    var w := Without(mounts, path);
    forall i | 0 <= i < |w| ensures IsNormal(w[i].path) {
      assert w[i] in mounts;
    }
    var r :| 0 <= r < |mounts| && mounts[r].path == ROOT;
    assert mounts[r] in w;
  }

  // ---------------------------------------------------------------- operations

  /** `canonicalize_path`: refuses a NUL byte, otherwise normalises. */
  method Canonicalize(path: Bytes) returns (r: Result<Bytes, MountError>)
    ensures r == if 0 in path then Err(InvalidPath) else Ok(Normal(path))
  {
    if 0 in path { return Err(InvalidPath); }
    if path == [] || path == ROOT {
      PartsOfAbsolute([]);
      ReduceSkipsEmpty([], Split(ROOT));
      NoSlash([]);
      return Ok(ROOT);
    }
    var source := if path[0] == SLASH then path else [SLASH] + path;
    LeadingSlash(path);
    var parts := ReducePieces([], Split(source));
    return Ok(if parts == [] then ROOT else Render(parts));
  }

  class Namespace {
    var providers: set<nat>
    var mounts: seq<MountPoint>
    var events: seq<Event>
    var nextEventId: U64

    ghost predicate Valid()
      reads this
    {
      TableOk(mounts)
    }

    /** `init`: the default provider at the root. */
    constructor (provider: nat)
      ensures Valid() && mounts == [MountPoint(ROOT, provider, false)] && providers == {provider}
    {
      providers := {provider};
      mounts := [MountPoint(ROOT, provider, false)];
      events, nextEventId := [Event(1, Mounted, ROOT)], 2;
      new;
      assert IsNormal(ROOT) by { assert AllPlain([]) && ROOT == Absolute([]); }
      assert mounts[0].path == ROOT;
    }

    /** `resolve_mount_internal`: the loop over the table. */
    method ResolveMount(path: Bytes) returns (r: Option<MountPoint>)
      requires Valid()
      ensures r.None? <==> NoneCovers(mounts, path)
      ensures r.Some? ==> IsBest(mounts, path, r.value)
    {
      r := None;
      var bestScore := 0;
      for i := 0 to |mounts|
        invariant r.None? <==> NoneCovers(mounts[..i], path)
        invariant r.Some? ==> IsBest(mounts[..i], path, r.value) && bestScore == |r.value.path|
      {
        var m := mounts[i];
        assert mounts[..i + 1] == mounts[..i] + [m];
        assert forall o :: o in mounts[..i + 1] <==> o in mounts[..i] || o == m;
        NormalIsNonEmpty(m.path);
        var mountPath := if m.path == [] then ROOT else m.path;
        if PathInMount(mountPath, path) {
          var score := |mountPath|;
          if r.None? || score >= bestScore {
            r, bestScore := Some(m), score;
          }
        }
      }
      assert mounts[..|mounts|] == mounts;
    }

    /**
     `resolve_path_internal`: every path without a NUL byte resolves to the one longest covering mount,
     and mount and provider path together rebuild the canonical path.
     */
    method ResolvePath(path: Bytes) returns (r: Result<ResolvedPath, MountError>)
      requires Valid()
      ensures r.Err? <==> 0 in path
      ensures r.Err? ==> r.error == InvalidPath
      ensures r.Ok? ==>
                && r.value.inputPath == path && r.value.absolutePath == Normal(path)
                && IsBest(mounts, Normal(path), MountPoint(r.value.mountPath, r.value.provider, r.value.readOnly))
                && Names(r.value.mountPath) <= Names(path)
                && r.value.providerPath == Absolute(Names(path)[|Names(r.value.mountPath)|..])
                && Rejoin(r.value.mountPath, r.value.providerPath) == Normal(path)
    {
      var absolute := Canonicalize(path);
      if absolute.Err? { return Err(absolute.error); }
      var m := ResolveMount(absolute.value);
      RootCovers(mounts, absolute.value);
      NamesArePlain(path);
      CoverIsPrefix(mounts, Names(path), m.value);
      ProviderPathMeansRest(Names(m.value.path), Names(path));
      RejoinRebuilds(Names(m.value.path), Names(path));
      return Ok(ResolvedPath(path, absolute.value, ProviderPath(m.value.path, absolute.value), m.value.path,
                             m.value.provider, m.value.readOnly));
    }

    method Record(kind: EventType, path: Bytes)
      modifies this`events, this`nextEventId
      ensures events == old(events) + [Event(old(nextEventId), kind, path)]
    {
      events := events + [Event(nextEventId, kind, path)];
      nextEventId := (nextEventId + 1) % (U64_MAX + 1);
    }

    /** `mount`. */
    method Mount(m: MountPoint) returns (r: Result<(), MountError>)
      requires Valid()
      modifies this`mounts, this`events, this`nextEventId
      ensures Valid()
      ensures r == if 0 in m.path then Err(InvalidPath)
                   else if m.provider !in providers then Err(ProviderUnavailable)
                   else if exists o :: o in old(mounts) && o.path == Normal(m.path) then Err(AlreadyExists)
                   else Ok(())
      ensures mounts == if r.Ok? then old(mounts) + [m.(path := Normal(m.path))] else old(mounts)
      ensures events == if r.Ok? then old(events) + [Event(old(nextEventId), Mounted, Normal(m.path))] else old(events)
    {
      var path := Canonicalize(m.path);
      if path.Err? { return Err(path.error); }
      if m.provider !in providers { return Err(ProviderUnavailable); }
      if exists i :: 0 <= i < |mounts| && mounts[i].path == path.value { return Err(AlreadyExists); }
      NamesArePlain(m.path);
      MountKeepsTable(mounts, m.(path := path.value));
      mounts := mounts + [m.(path := path.value)];
      Record(Mounted, path.value);
      return Ok(());
    }

    /** `unmount`: removes the mount at the path; the root stays. */
    method Unmount(path: Bytes) returns (r: Result<(), MountError>)
      requires Valid()
      modifies this`mounts, this`events, this`nextEventId
      ensures Valid()
      ensures r == if 0 in path then Err(InvalidPath)
                   else if Normal(path) == ROOT then Err(Busy)
                   else if forall o :: o in old(mounts) ==> o.path != Normal(path) then Err(NotFound)
                   else Ok(())
      ensures mounts == if r.Ok? then Without(old(mounts), Normal(path)) else old(mounts)
      ensures events == if r.Ok? then old(events) + [Event(old(nextEventId), Unmounted, Normal(path))] else old(events)
    {
      var canonical := Canonicalize(path);
      if canonical.Err? { return Err(canonical.error); }
      if canonical.value == ROOT { return Err(Busy); }
      var before := |mounts|;
      WithoutMembers(mounts, canonical.value);
      var left := Retain(canonical.value);
      if |left| == before {
        WithoutAbsent(mounts, canonical.value);
        return Err(NotFound);
      }
      UnmountKeepsTable(mounts, canonical.value);
      mounts := left;
      Record(Unmounted, canonical.value);
      return Ok(());
    }

    /** `retain(|m| m.path != path)`. */
    method Retain(path: Bytes) returns (left: seq<MountPoint>)
      ensures left == Without(mounts, path)
    {
      left := [];
      for i := 0 to |mounts|
        invariant left == Without(mounts[..i], path)
      {
        assert mounts[..i + 1] == mounts[..i] + [mounts[i]];
        WithoutAppend(mounts[..i], mounts[i], path);
        if mounts[i].path != path { left := left + [mounts[i]]; }
      }
      assert mounts[..|mounts|] == mounts;
    }
  }
}
