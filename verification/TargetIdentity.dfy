/** The identity manifest of a target (crates/planner/src/identity_guard.rs), as far as the
    mutation pipeline reads it, and selection of unique entries. */
module TargetIdentity {
  import opened Wrappers
  import opened Operations
  import opened Journals

  datatype RouteStatus = SupportedProfile | AdapterRequired | RouteBlocked

  datatype Device = Device(path: string, sizeBytes: U64)

  datatype Partition = Partition(
    partition: string,
    disk: Option<string>,
    tableLabel: Option<string>,
    tableId: Option<string>,
    sectorSizeBytes: Option<U64>,
    startSector: Option<U64>,
    sizeSectors: Option<U64>,
    recordUuid: Option<string>)

  datatype LvmKind = PhysicalVolume | VolumeGroup | LogicalVolume

  datatype LvmEntry = LvmEntry(
    kind: LvmKind, name: string, uuid: Option<string>, sizeBytes: U64, peStartBytes: Option<U64>)

  datatype Filesystem = Filesystem(
    device: string,
    fsType: string,
    fsVersion: Option<string>,
    uuid: Option<string>,
    backingSizeBytes: U64,
    observedSizeBytes: Option<U64>)

  datatype Mount = Mount(target: string, source: Option<string>, fsType: Option<string>, options: seq<string>)

  datatype Identity = Identity(
    target: string,
    manifestDigest: Digest,
    resolvedDevice: string,
    routeStatus: RouteStatus,
    devices: seq<Device>,
    partitions: seq<Partition>,
    lvm: seq<LvmEntry>,
    filesystem: Option<Filesystem>,
    mounts: seq<Mount>)

  /** How identity manifests are fingerprinted. */
  type Fingerprint = Identity -> Digest

  /** The digest of a manifest is the fingerprint of the manifest without it. */
  predicate Sealed(identity: Identity, fingerprint: Fingerprint) {
    identity.manifestDigest == fingerprint(identity.(manifestDigest := Literal("")))
  }

  ghost predicate WellFormedDigests(fingerprint: Fingerprint) {
    forall identity :: IsHexDigest(fingerprint(identity))
  }

  /** `iter().filter(..).collect()`. */
  function Filter<T(!new)>(xs: seq<T>, p: T -> bool): (r: seq<T>)
    ensures forall x :: x in r <==> x in xs && p(x)
  {
    if xs == [] then []
    else Filter(xs[..|xs| - 1], p) + (if p(xs[|xs| - 1]) then [xs[|xs| - 1]] else [])
  }

  /** The one entry that satisfies the condition, if there is exactly one. */
  function Only<T(!new)>(xs: seq<T>, p: T -> bool): (r: Option<T>)
    ensures r.Some? ==> r.value in xs && p(r.value)
  {
    var matches := Filter(xs, p);
    if |matches| == 1 then
      assert matches[0] in matches;
      Some(matches[0])
    else None
  }

  /** `iter().find(..)`. */
  function Find<T(!new)>(xs: seq<T>, p: T -> bool): (r: Option<T>)
    ensures r.Some? ==> r.value in xs && p(r.value)
    ensures r.None? ==> forall x :: x in xs ==> !p(x)
  {
    if xs == [] then None
    else if p(xs[0]) then Some(xs[0])
    else Find(xs[1..], p)
  }

  /** Map every element. */
  function Map<T, U>(xs: seq<T>, f: T -> U): (r: seq<U>)
    ensures |r| == |xs| && forall i :: 0 <= i < |xs| ==> r[i] == f(xs[i])
  {
    seq(|xs|, i requires 0 <= i < |xs| => f(xs[i]))
  }

  /** A change that keeps the condition maps the matches one by one. */
  lemma {:induction false} FilterMap<T(!new)>(xs: seq<T>, f: T -> T, p: T -> bool)
    requires forall x :: x in xs ==> p(f(x)) == p(x)
    ensures Filter(Map(xs, f), p) == Map(Filter(xs, p), f)
  {
    if xs != [] {
      var n := |xs| - 1;
      FilterMap(xs[..n], f, p);
      assert Map(xs, f)[..n] == Map(xs[..n], f);
      assert xs[n] in xs;
      var head := Filter(xs[..n], p);
      if p(xs[n]) {
        assert Map(head + [xs[n]], f) == Map(head, f) + [f(xs[n])];
      } else {
        assert head + [] == head && Map(head, f) + [] == Map(head, f);
      }
    }
  }

  lemma OnlyMap<T(!new)>(xs: seq<T>, f: T -> T, p: T -> bool)
    requires forall x :: x in xs ==> p(f(x)) == p(x)
    ensures Only(Map(xs, f), p) == if Only(xs, p).Some? then Some(f(Only(xs, p).value)) else None
  {
    FilterMap(xs, f, p);
  }
}
