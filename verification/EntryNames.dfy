/** Names of entries in the journal directory (crates/executor/src/journal_store.rs,
    `history_identity`, `staging_journal_id` and the formatting of generated names). */
module EntryNames {
  import opened Wrappers
  import opened Decimals
  import opened Operations
  import opened Journals

  /** A directory entry by what its name says. `Foreign` is any other name. */
  datatype EntryName<+D> =
    | Primary(id: D)
    | History(id: D, sequence: nat, digest: D)
    | Staging(id: D, pid: nat, sequence: nat)
    | Foreign(text: string)

  // ----- text operations of the standard library -----

  predicate OccursAt(text: string, sep: string, i: nat) {
    i + |sep| <= |text| && text[i..i + |sep|] == sep
  }

  /** First occurrence of a separator at or after a position. */
  function FindFrom(text: string, sep: string, start: nat): (index: Option<nat>)
    ensures index.Some? ==>
              && start <= index.value && OccursAt(text, sep, index.value)
              && forall i :: start <= i < index.value ==> !OccursAt(text, sep, i)
    ensures index.None? ==> forall i :: start <= i ==> !OccursAt(text, sep, i)
    decreases |text| - start
  {
    if OccursAt(text, sep, start) then Some(start)
    else if start >= |text| then None
    else FindFrom(text, sep, start + 1)
  }

  /** `str::split_once`. */
  function SplitOnce(text: string, sep: string): (parts: Option<(string, string)>)
    ensures parts.Some? ==> text == parts.value.0 + sep + parts.value.1
  {
    var index := FindFrom(text, sep, 0);
    if index.None? then None
    else Some((text[..index.value], text[index.value + |sep|..]))
  }

  function StripPrefix(text: string, prefix: string): (rest: Option<string>)
    ensures rest.Some? ==> text == prefix + rest.value
  {
    if prefix <= text then Some(text[|prefix|..]) else None
  }

  function StripSuffix(text: string, suffix: string): (rest: Option<string>)
    ensures rest.Some? ==> text == rest.value + suffix
  {
    if |suffix| <= |text| && text[|text| - |suffix|..] == suffix then
      Some(text[..|text| - |suffix|])
    else None
  }

  /** A separator whose first character is not in the head splits right after the head. */
  lemma SplitAfter(head: string, sep: string, tail: string)
    requires |sep| > 0 && sep[0] !in head
    ensures SplitOnce(head + sep + tail, sep) == Some((head, tail))
  {
    var text := head + sep + tail;
    assert text[|head|..|head| + |sep|] == sep;
    assert OccursAt(text, sep, |head|);
    forall i | 0 <= i < |head| ensures !OccursAt(text, sep, i) {
      assert text[i..i + |sep|][0] == head[i];
    }
    assert FindFrom(text, sep, 0) == Some(|head|);
    assert text[..|head|] == head && text[|head| + |sep|..] == tail;
  }

  // ----- parsing, in source order -----

  const TMP: string := ".tmp-"
  const HISTORY: string := ".history-"
  const JSON: string := ".json"

  /** Digits only, canonical, and within u64. */
  predicate CanonicalU64(text: string) {
    Canonical(text) && DecimalValue(text) < U64_LIMIT
  }

  function HistoryIdentity(name: string): Option<(string, nat, string)> {
    match StripPrefix(name, ".")
    case None => None
    case Some(body) =>
      match SplitOnce(body, HISTORY)
      case None => None
      case Some((id, rest)) =>
        if !IsLowerHex64(id) then None
        else
          match SplitOnce(rest, "-")
          case None => None
          case Some((sequence, digest)) =>
            if !CanonicalU64(sequence) || !IsLowerHex64(digest) then None
            else Some((id, DecimalValue(sequence), digest))
  }

  function StagingParts(name: string): Option<(string, nat, nat)> {
    match StripPrefix(name, ".")
    case None => None
    case Some(body) =>
      match SplitOnce(body, TMP)
      case None => None
      case Some((id, suffix)) =>
        if !IsLowerHex64(id) then None
        else
          match SplitOnce(suffix, "-")
          case None => None
          case Some((pid, sequence)) =>
            if !CanonicalU64(pid) || pid == "0" || !CanonicalU64(sequence) then None
            else Some((id, DecimalValue(pid), DecimalValue(sequence)))
  }

  /** `staging_journal_id`. */
  function StagingJournalId(name: string): Option<string> {
    match StagingParts(name)
    case None => None
    case Some((id, _, _)) => Some(id)
  }

  /** The classification `all` and `inspect` make, in their order: history, then the
      primary suffix, then staging. */
  function Parse(name: string): EntryName<string> {
    match HistoryIdentity(name)
    case Some((id, sequence, digest)) => History(id, sequence, digest)
    case None =>
      match StripSuffix(name, JSON)
      case Some(id) => if IsLowerHex64(id) then Primary(id) else Foreign(name)
      case None =>
        match StagingParts(name)
        case Some((id, pid, sequence)) => Staging(id, pid, sequence)
        case None => Foreign(name)
  }

  // ----- formatting -----

  function Print(entry: EntryName<string>): string {
    match entry
    case Primary(id) => id + JSON
    case History(id, sequence, digest) => "." + (id + HISTORY + (Decimal(sequence) + "-" + digest))
    case Staging(id, pid, sequence) => "." + (id + TMP + (Decimal(pid) + "-" + Decimal(sequence)))
    case Foreign(text) => text
  }

  /** Names the program generates: valid IDs and digests, 64-bit counters, a real PID. */
  predicate Generated(entry: EntryName<string>) {
    match entry
    case Primary(id) => IsLowerHex64(id)
    case History(id, sequence, digest) =>
      IsLowerHex64(id) && sequence < U64_LIMIT && IsLowerHex64(digest)
    case Staging(id, pid, sequence) =>
      IsLowerHex64(id) && 0 < pid < U64_LIMIT && sequence < U64_LIMIT
    case Foreign(_) => false
  }

  lemma HexHasNo(text: string, c: char)
    requires IsLowerHex64(text) && !IsLowerHexDigit(c)
    ensures c !in text
  {
  }

  lemma DigitsHaveNo(n: nat, c: char)
    requires !IsDigit(c)
    ensures c !in Decimal(n)
  {
  }

  /** `history_identity` recovers exactly what was formatted. */
  lemma HistoryRoundTrip(id: string, sequence: nat, digest: string)
    requires Generated(History(id, sequence, digest))
    ensures HistoryIdentity(Print(History(id, sequence, digest))) == Some((id, sequence, digest))
  {
    HexHasNo(id, '.');
    SplitAfter(id, HISTORY, Decimal(sequence) + "-" + digest);
    DigitsHaveNo(sequence, '-');
    SplitAfter(Decimal(sequence), "-", digest);
  }

  lemma StagingRoundTrip(id: string, pid: nat, sequence: nat)
    requires Generated(Staging(id, pid, sequence))
    ensures StagingParts(Print(Staging(id, pid, sequence))) == Some((id, pid, sequence))
  {
    HexHasNo(id, '.');
    SplitAfter(id, TMP, Decimal(pid) + "-" + Decimal(sequence));
    DigitsHaveNo(pid, '-');
    SplitAfter(Decimal(pid), "-", Decimal(sequence));
  }

  lemma StagingIsNotHistory(a: EntryName<string>, b: EntryName<string>)
    requires Generated(a) && a.Staging? && Generated(b) && b.History?
    ensures Print(a) != Print(b)
  {
    HexHasNo(a.id, '.');
    HexHasNo(b.id, '.');
    var left := TMP + (Decimal(a.pid) + "-" + Decimal(a.sequence));
    var right := HISTORY + (Decimal(b.sequence) + "-" + b.digest);
    assert left[1] == 't' && right[1] == 'h';
    DotAt(a.id, left, b.id, right);
    assert Print(a)[1..] == a.id + left && Print(b)[1..] == b.id + right;
  }

  /** A primary or staging name is never taken for a history name. */
  lemma NotHistory(entry: EntryName<string>)
    requires Generated(entry) && !entry.History?
    ensures HistoryIdentity(Print(entry)).None?
  {
    var name := Print(entry);
    HexHasNo(entry.id, '.');
    if entry.Primary? {
      assert name[0] == entry.id[0];
    } else if HistoryIdentity(name).Some? {
      HistoryIsPrinted(name);
      var (id, sequence, digest) := HistoryIdentity(name).value;
      StagingIsNotHistory(entry, History(id, sequence, digest));
    }
  }

  /** Two dot-free heads followed by a dot and different next characters differ. */
  lemma DotAt(a: string, aRest: string, b: string, bRest: string)
    requires '.' !in a && '.' !in b
    requires |aRest| > 1 && |bRest| > 1 && aRest[0] == '.' && bRest[0] == '.' && aRest[1] != bRest[1]
    ensures a + aRest != b + bRest
  {
    var x, y := a + aRest, b + bRest;
    assert x[|a|] == '.' && y[|b|] == '.';
    if |a| < |b| {
      assert y[|a|] == b[|a|];
    } else if |b| < |a| {
      assert x[|b|] == a[|b|];
    } else {
      assert x[|a| + 1] == aRest[1] && y[|a| + 1] == bRest[1];
    }
  }

  /** Every accepted history name is the print of its parse. */
  lemma HistoryIsPrinted(name: string)
    requires HistoryIdentity(name).Some?
    ensures var (id, sequence, digest) := HistoryIdentity(name).value;
            Generated(History(id, sequence, digest)) && name == Print(History(id, sequence, digest))
  {
    var body := StripPrefix(name, ".").value;
    var (id, rest) := SplitOnce(body, HISTORY).value;
    var (sequence, digest) := SplitOnce(rest, "-").value;
    CanonicalIsPrinted(sequence);
  }

  lemma StagingIsPrinted(name: string)
    requires StagingParts(name).Some?
    ensures var (id, pid, sequence) := StagingParts(name).value;
            Generated(Staging(id, pid, sequence)) && name == Print(Staging(id, pid, sequence))
  {
    var body := StripPrefix(name, ".").value;
    var (id, suffix) := SplitOnce(body, TMP).value;
    var (pid, sequence) := SplitOnce(suffix, "-").value;
    CanonicalIsPrinted(pid);
    CanonicalIsPrinted(sequence);
    assert Decimal(0) == "0";
  }

  /** Printing undoes parsing, for every name. */
  lemma PrintOfParse(name: string)
    ensures Print(Parse(name)) == name
    ensures Parse(name).Foreign? || Generated(Parse(name))
  {
    if HistoryIdentity(name).Some? {
      HistoryIsPrinted(name);
    } else if StripSuffix(name, JSON).None? && StagingParts(name).Some? {
      StagingIsPrinted(name);
    }
  }

  /** Parsing undoes printing, for every generated name; so generated names of different
      kinds or contents are different texts. */
  lemma ParseOfPrint(entry: EntryName<string>)
    requires Generated(entry)
    ensures Parse(Print(entry)) == entry
    ensures entry.Staging? ==> StagingJournalId(Print(entry)) == Some(entry.id)
  {
    match entry
    case History(id, sequence, digest) =>
      HistoryRoundTrip(id, sequence, digest);
    case Primary(id) =>
      NotHistory(entry);
      assert Print(entry)[..|id|] == id;
    case Staging(id, pid, sequence) =>
      NotHistory(entry);
      StagingRoundTrip(id, pid, sequence);
      StagingIsNoPrimary(entry);
  }

  /** A staging name ends in a digit. */
  lemma StagingIsNoPrimary(entry: EntryName<string>)
    requires Generated(entry) && entry.Staging?
    ensures StripSuffix(Print(entry), JSON).None?
  {
    var name := Print(entry);
    var last := Decimal(entry.sequence);
    assert name[|name| - 1] == last[|last| - 1];
    assert IsDigit(name[|name| - 1]);
    var tail := name[|name| - |JSON|..];
    assert tail[|JSON| - 1] == name[|name| - 1] && JSON[|JSON| - 1] == 'n';
  }

  lemma GeneratedNamesDistinct(a: EntryName<string>, b: EntryName<string>)
    requires Generated(a) && Generated(b) && Print(a) == Print(b)
    ensures a == b
  {
    ParseOfPrint(a);
    ParseOfPrint(b);
  }
}
