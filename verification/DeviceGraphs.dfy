/** Matching logical volumes with the block device graph
    (crates/discovery/src/reconcile.rs). */
module DeviceGraphs {
  import opened Wrappers

  // ----- mapper aliases -----

  /** `dm_escape`: every hyphen is doubled. */
  function Escape(text: string): string {
    if text == "" then ""
    else if text[0] == '-' then "--" + Escape(text[1..])
    else [text[0]] + Escape(text[1..])
  }

  /** The part of a mapper alias after `/dev/mapper/`. */
  function MapperName(vg: string, lv: string): string {
    Escape(vg) + "-" + Escape(lv)
  }

  predicate Hyphens(text: string) {
    forall i :: 0 <= i < |text| ==> text[i] == '-'
  }

  lemma {:induction false} EscapeConcat(a: string, b: string)
    ensures Escape(a + b) == Escape(a) + Escape(b)
  {
    if a == "" {
      assert a + b == b;
    } else {
      assert (a + b)[1..] == a[1..] + b;
      EscapeConcat(a[1..], b);
    }
  }

  lemma {:induction false} EscapeHyphens(h: string)
    requires Hyphens(h)
    ensures Hyphens(Escape(h))
  {
    if h != "" {
      EscapeHyphens(h[1..]);
    }
  }

  lemma HyphensCommute(h: string)
    requires Hyphens(h)
    ensures h + "-" == "-" + h
  {
  }

  /** Escaping can be undone. */
  lemma {:induction false} EscapeInjective(a: string, b: string)
    requires Escape(a) == Escape(b)
    ensures a == b
  {
    if a == "" || b == "" {
    } else {
      EscapeTail(a, b);
      EscapeInjective(a[1..], b[1..]);
      assert a == [a[0]] + a[1..] && b == [b[0]] + b[1..];
    }
  }

  /** The first character and what follows it can be read off an escaped text. */
  lemma EscapeTail(a: string, b: string)
    requires a != "" && b != "" && Escape(a) == Escape(b)
    ensures a[0] == b[0] && Escape(a[1..]) == Escape(b[1..])
  {
    StripHead(a[0], Escape(a[1..]), b[0], Escape(b[1..]));
  }

  function Head(c: char): string {
    if c == '-' then "--" else [c]
  }

  lemma StripHead(c: char, s: string, d: char, t: string)
    requires Head(c) + s == Head(d) + t
    ensures c == d && s == t
  {
    assert (Head(c) + s)[0] == c && (Head(d) + t)[0] == d;
    assert (Head(c) + s)[|Head(c)|..] == s && (Head(d) + t)[|Head(d)|..] == t;
  }

  /** Hyphens moved from the end of the group name to the start of the volume name. */
  predicate Moved(vg: string, lv: string, vg': string, lv': string, h: string) {
    Hyphens(h) && vg == vg' + h && lv' == h + lv
  }

  lemma MovedSameName(vg: string, lv: string, vg': string, lv': string, h: string)
    requires Moved(vg, lv, vg', lv', h)
    ensures MapperName(vg, lv) == MapperName(vg', lv')
  {
    EscapeConcat(vg', h);
    EscapeConcat(h, lv);
    EscapeHyphens(h);
    HyphensCommute(Escape(h));
    Regroup(Escape(vg'), Escape(h), Escape(lv));
  }

  lemma Regroup(a: string, e: string, b: string)
    requires e + "-" == "-" + e
    ensures (a + e) + "-" + b == a + "-" + (e + b)
  {
    assert (a + e) + "-" + b == a + (e + "-") + b;
    assert a + "-" + (e + b) == a + ("-" + e) + b;
  }

  /** A mapper name starts with the first character of the group name, escaped. */
  lemma MapperHead(vg: string, lv: string)
    ensures vg == "" ==> MapperName(vg, lv) == "-" + Escape(lv)
    ensures vg != "" ==> MapperName(vg, lv) == Head(vg[0]) + MapperName(vg[1..], lv)
  {
    if vg != "" {
      var rest := Escape(vg[1..]);
      assert Head(vg[0]) + rest + "-" + Escape(lv) == Head(vg[0]) + (rest + "-" + Escape(lv));
    }
  }

  lemma HyphenHead(s: string, c: char, t: string)
    requires "-" + s == Head(c) + t
    ensures c == '-' && s == "-" + t
  {
    assert ("-" + s)[0] == '-' && (Head(c) + t)[0] == c;
    assert ("-" + s)[1..] == s && (Head(c) + t)[1..] == "-" + t;
  }

  lemma HyphenEscape(text: string, t: string)
    requires Escape(text) == "-" + t
    ensures text != "" && text[0] == '-' && t == "-" + Escape(text[1..])
  {
    assert text != "";
    HyphenHead(t, text[0], Escape(text[1..]));
  }

  /** With an empty group name, the rest of the other group name is all hyphens. */
  lemma {:induction false} EmptyGroup(lv: string, vg': string, lv': string)
    requires MapperName("", lv) == MapperName(vg', lv')
    ensures Moved(vg', lv', "", lv, vg')
    decreases |vg'|
  {
    MapperHead("", lv);
    MapperHead(vg', lv');
    if vg' == "" {
      SameTail(Escape(lv), Escape(lv'));
      EscapeInjective(lv, lv');
      assert lv == "" + lv';
    } else {
      var rest := MapperName(vg'[1..], lv');
      HyphenHead(Escape(lv), vg'[0], rest);
      HyphenEscape(lv, rest);
      MapperHead("", lv[1..]);
      EmptyGroup(lv[1..], vg'[1..], lv');
      assert vg' == ['-'] + vg'[1..] && lv == ['-'] + lv[1..];
    }
  }

  lemma SameTail(s: string, t: string)
    requires "-" + s == "-" + t
    ensures s == t
  {
    assert ("-" + s)[1..] == s && ("-" + t)[1..] == t;
  }

  lemma MovedCons(vg: string, lv: string, vg': string, lv': string, h: string)
    requires vg != "" && vg' != "" && vg[0] == vg'[0] && Moved(vg[1..], lv, vg'[1..], lv', h)
    ensures Moved(vg, lv, vg', lv', h)
  {
    assert vg == [vg[0]] + vg[1..] && vg' == [vg'[0]] + vg'[1..];
    assert [vg'[0]] + (vg'[1..] + h) == vg' + h;
  }

  lemma {:induction false} SameNameMoved(vg: string, lv: string, vg': string, lv': string)
    requires MapperName(vg, lv) == MapperName(vg', lv')
    ensures exists h :: Moved(vg, lv, vg', lv', h) || Moved(vg', lv', vg, lv, h)
    decreases |vg|
  {
    if vg == "" {
      EmptyGroup(lv, vg', lv');
    } else if vg' == "" {
      EmptyGroup(lv', vg, lv);
    } else {
      MapperHead(vg, lv);
      MapperHead(vg', lv');
      StripHead(vg[0], MapperName(vg[1..], lv), vg'[0], MapperName(vg'[1..], lv'));
      SameNameMoved(vg[1..], lv, vg'[1..], lv');
      var h :| Moved(vg[1..], lv, vg'[1..], lv', h) || Moved(vg'[1..], lv', vg[1..], lv, h);
      if Moved(vg[1..], lv, vg'[1..], lv', h) {
        MovedCons(vg, lv, vg', lv', h);
      } else {
        MovedCons(vg', lv', vg, lv, h);
      }
    }
  }

  /** Two logical volumes share a mapper alias if and only if one pair of names comes from
      the other by moving hyphens across the separator. */
  lemma SharedAlias(vg: string, lv: string, vg': string, lv': string)
    ensures MapperName(vg, lv) == MapperName(vg', lv') <==>
            exists h :: Moved(vg, lv, vg', lv', h) || Moved(vg', lv', vg, lv, h)
  {
    if MapperName(vg, lv) == MapperName(vg', lv') {
      SameNameMoved(vg, lv, vg', lv');
    }
    forall h | Moved(vg, lv, vg', lv', h) || Moved(vg', lv', vg, lv, h)
      ensures MapperName(vg, lv) == MapperName(vg', lv')
    {
      if Moved(vg, lv, vg', lv', h) {
        MovedSameName(vg, lv, vg', lv', h);
      } else {
        MovedSameName(vg', lv', vg, lv, h);
      }
    }
  }

  lemma MovedNothing(vg: string, lv: string, vg': string, lv': string, h: string)
    requires Moved(vg, lv, vg', lv', h) && !("-" <= lv')
    ensures h == ""
  {
    assert forall i :: 0 <= i < |h| ==> lv'[i] == '-';
  }

  /** So logical volumes whose names do not begin with a hyphen never share one. */
  lemma AliasDecodes(vg: string, lv: string, vg': string, lv': string)
    requires !("-" <= lv) && !("-" <= lv')
    requires MapperName(vg, lv) == MapperName(vg', lv')
    ensures vg == vg' && lv == lv'
  {
    SameNameMoved(vg, lv, vg', lv');
    var h :| Moved(vg, lv, vg', lv', h) || Moved(vg', lv', vg, lv, h);
    if Moved(vg, lv, vg', lv', h) {
      MovedNothing(vg, lv, vg', lv', h);
    } else {
      MovedNothing(vg', lv', vg, lv, h);
    }
  }

  /** Without that condition they can. */
  lemma AliasAmbiguous()
    ensures MapperName("a-", "b") == MapperName("a", "-b")
  {
    assert "a-" == "a" + "-" && "-b" == "-" + "b";
    MovedSameName("a-", "b", "a", "-b", "-");
  }

  // ----- the device tree -----

  datatype BlockDevice = BlockDevice(
    name: string, path: Option<string>, kernelName: Option<string>,
    uuid: Option<string>, partitionUuid: Option<string>, children: seq<BlockDevice>)

  /** The device answers to this alias. */
  predicate Answers(d: BlockDevice, alias: string) {
    || d.path == Some(alias)
    || (d.kernelName.Some? && "/dev/" + d.kernelName.value == alias)
    || "/dev/" + d.name == alias
  }

  /** All devices of a forest, every device before its children. */
  function Preorder(devices: seq<BlockDevice>): seq<BlockDevice> {
    if devices == [] then []
    else [devices[0]] + Preorder(devices[0].children) + Preorder(devices[1..])
  }

  /** `find_graph_alias`. */
  function FindGraphAlias(devices: seq<BlockDevice>, alias: string): Option<BlockDevice> {
    if devices == [] then None
    else if Answers(devices[0], alias) then Some(devices[0])
    else
      var found := FindGraphAlias(devices[0].children, alias);
      if found.Some? then found else FindGraphAlias(devices[1..], alias)
  }

  predicate FirstAnswer(devices: seq<BlockDevice>, alias: string, i: nat)
    requires i < |devices|
  {
    Answers(devices[i], alias) && forall k :: 0 <= k < i ==> !Answers(devices[k], alias)
  }

  predicate NoAnswer(devices: seq<BlockDevice>, alias: string) {
    forall k :: 0 <= k < |devices| ==> !Answers(devices[k], alias)
  }

  /** The search is exact at any depth: it finds the first device in preorder that answers,
      and nothing only when no device does. */
  lemma {:induction false} FindsFirst(devices: seq<BlockDevice>, alias: string) returns (i: nat)
    ensures FindGraphAlias(devices, alias).Some? ==>
              && i < |Preorder(devices)| && FirstAnswer(Preorder(devices), alias, i)
              && FindGraphAlias(devices, alias) == Some(Preorder(devices)[i])
    ensures FindGraphAlias(devices, alias).None? ==> NoAnswer(Preorder(devices), alias)
    decreases devices
  {
    i := 0;
    if devices != [] && !Answers(devices[0], alias) {
      var below, after := Preorder(devices[0].children), Preorder(devices[1..]);
      assert Preorder(devices) == [devices[0]] + below + after;
      i := FindsFirst(devices[0].children, alias);
      if FindGraphAlias(devices[0].children, alias).Some? {
        i := i + 1;
      } else {
        i := FindsFirst(devices[1..], alias);
        i := i + 1 + |below|;
      }
    }
  }

  /** UUIDs and partition UUIDs of some devices. */
  function UuidsOf(devices: seq<BlockDevice>): set<string> {
    set d | d in devices && d.uuid.Some? :: d.uuid.value
  }

  function PartitionUuidsOf(devices: seq<BlockDevice>): set<string> {
    set d | d in devices && d.partitionUuid.Some? :: d.partitionUuid.value
  }

  lemma UuidsConcat(a: seq<BlockDevice>, b: seq<BlockDevice>)
    ensures UuidsOf(a + b) == UuidsOf(a) + UuidsOf(b)
    ensures PartitionUuidsOf(a + b) == PartitionUuidsOf(a) + PartitionUuidsOf(b)
  {
    assert forall d :: d in a + b <==> d in a || d in b;
  }

  lemma UuidsOne(d: BlockDevice)
    ensures UuidsOf([d]) == if d.uuid.Some? then {d.uuid.value} else {}
    ensures PartitionUuidsOf([d]) == if d.partitionUuid.Some? then {d.partitionUuid.value} else {}
  {
    assert d in [d];
  }

  lemma {:induction false} PreorderConcat(a: seq<BlockDevice>, b: seq<BlockDevice>)
    ensures Preorder(a + b) == Preorder(a) + Preorder(b)
    decreases |a|
  {
    if a == [] {
      assert a + b == b;
    } else {
      assert (a + b)[1..] == a[1..] + b;
      PreorderConcat(a[1..], b);
    }
  }

  /** One more device of a forest: itself and everything below it. */
  lemma CollectStep(devices: seq<BlockDevice>, i: nat)
    requires i < |devices|
    ensures var d := devices[i];
            && UuidsOf(Preorder(devices[..i + 1]))
               == UuidsOf(Preorder(devices[..i])) + (if d.uuid.Some? then {d.uuid.value} else {})
                  + UuidsOf(Preorder(d.children))
            && PartitionUuidsOf(Preorder(devices[..i + 1]))
               == PartitionUuidsOf(Preorder(devices[..i]))
                  + (if d.partitionUuid.Some? then {d.partitionUuid.value} else {})
                  + PartitionUuidsOf(Preorder(d.children))
  {
    var d := devices[i];
    assert devices[..i + 1] == devices[..i] + [d];
    PreorderConcat(devices[..i], [d]);
    assert [d][1..] == [] && Preorder([d]) == [d] + Preorder(d.children);
    UuidsConcat(Preorder(devices[..i]), [d] + Preorder(d.children));
    UuidsConcat([d], Preorder(d.children));
    UuidsOne(d);
  }

  /** `collect_ids`: the sets gain exactly the identifiers found anywhere in the forest. */
  method CollectIds(devices: seq<BlockDevice>, uuids: set<string>, partitionUuids: set<string>)
    returns (allUuids: set<string>, allPartitionUuids: set<string>)
    ensures allUuids == uuids + UuidsOf(Preorder(devices))
    ensures allPartitionUuids == partitionUuids + PartitionUuidsOf(Preorder(devices))
    decreases devices
  {
    allUuids, allPartitionUuids := uuids, partitionUuids;
    var i := 0;
    while i < |devices|
      invariant 0 <= i <= |devices|
      invariant allUuids == uuids + UuidsOf(Preorder(devices[..i]))
      invariant allPartitionUuids == partitionUuids + PartitionUuidsOf(Preorder(devices[..i]))
    {
      var d := devices[i];
      CollectStep(devices, i);
      if d.uuid.Some? { allUuids := allUuids + {d.uuid.value}; }
      if d.partitionUuid.Some? { allPartitionUuids := allPartitionUuids + {d.partitionUuid.value}; }
      allUuids, allPartitionUuids := CollectIds(d.children, allUuids, allPartitionUuids);
      i := i + 1;
    }
    assert devices[..i] == devices;
  }
}
