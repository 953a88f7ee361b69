/** Deriving a partition number from a partition and a disk path
    (crates/executor/src/disposable_argv.rs, `partition_number`). */
module PartitionNumbers {
  import opened Wrappers
  import opened Decimals
  import opened Journals

  const U32_LIMIT: nat := 0x1_0000_0000

  predicate NoControl(text: string) {
    forall i :: 0 <= i < |text| ==> !IsControl(text[i])
  }

  predicate SafeAbsolutePath(text: string) {
    "/" <= text && NoControl(text)
  }

  predicate SafeDevicePath(text: string) {
    "/dev/" <= text && NoControl(text)
  }

  predicate EndsInDigit(text: string) {
    |text| > 0 && IsDigit(text[|text| - 1])
  }

  /** The digits after the disk path: a disk that ends in a digit needs a separating `p`,
      any other disk may have one. */
  function NumberDigits(partition: string, disk: string): Option<string> {
    if !(disk <= partition) then None
    else
      var suffix := partition[|disk|..];
      if "p" <= suffix then Some(suffix[1..])
      else if EndsInDigit(disk) then None
      else Some(suffix)
  }

  /** `partition_number`. */
  function PartitionNumber(partition: string, disk: string): Option<nat> {
    match NumberDigits(partition, disk)
    case None => None
    case Some(digits) =>
      if digits == "" || !AllDigits(digits) then None
      else if DecimalValue(digits) >= U32_LIMIT || DecimalValue(digits) == 0 then None
      else Some(DecimalValue(digits))
  }

  /** The name the kernel gives a partition of a disk. */
  function PartitionPath(disk: string, number: nat): string {
    disk + (if EndsInDigit(disk) then "p" else "") + Decimal(number)
  }

  /** Every partition name of a disk gives its number back. */
  lemma NumberOfPath(disk: string, number: nat)
    requires 0 < number < U32_LIMIT
    ensures PartitionNumber(PartitionPath(disk, number), disk) == Some(number)
  {
    var separator := if EndsInDigit(disk) then "p" else "";
    var path, digits := PartitionPath(disk, number), Decimal(number);
    assert path == disk + (separator + digits);
    assert path[|disk|..] == separator + digits;
    assert ("p" + digits)[1..] == digits;
    assert IsDigit(digits[0]);
    assert !("p" <= digits);
  }

  /** What a path that gives a number looks like: the disk, an optional separator, and the
      number with any leading zeros. */
  lemma NumberParts(partition: string, disk: string)
    requires PartitionNumber(partition, disk).Some?
    ensures var digits := NumberDigits(partition, disk).value;
            && |digits| > 0 && AllDigits(digits)
            && (partition == disk + digits || partition == disk + "p" + digits)
            && (EndsInDigit(disk) ==> partition == disk + "p" + digits)
    ensures |partition| > |disk|
  {
    var suffix := partition[|disk|..];
    assert partition == disk + suffix;
    if "p" <= suffix {
      assert suffix == "p" + suffix[1..];
    }
  }

  /** A disk path cannot end inside the digits of another reading. */
  lemma DigitsRunOut(partition: string, first: string, a: string, second: string, b: string)
    requires partition == first + a && AllDigits(a) && |a| > 0 && !EndsInDigit(first)
    requires |b| > 0 && AllDigits(b) && |first| <= |second| && second <= partition
    requires partition == second + b || partition == second + "p" + b
    requires EndsInDigit(second) ==> partition == second + "p" + b
    ensures second == first && a == b
  {
    assert forall m :: |first| <= m < |partition| ==> IsDigit(partition[m]) && partition[m] == a[m - |first|];
    assert forall m :: 0 <= m < |second| ==> second[m] == partition[m];
    assert first == partition[..|first|] && second == partition[..|second|];
    assert partition[|second|] == if partition == second + b then b[0] else 'p';
    assert a == partition[|first|..] && b == partition[|second|..];
  }

  /** Nor beyond the separator of one. */
  lemma SeparatorSplits(partition: string, first: string, a: string, second: string, b: string)
    requires partition == first + "p" + a && AllDigits(a) && |a| > 0
    requires |b| > 0 && AllDigits(b) && |first| <= |second| && second <= partition
    requires partition == second + b || partition == second + "p" + b
    requires EndsInDigit(second) ==> partition == second + "p" + b
    ensures (second == first || second == first + "p") && a == b
  {
    assert forall m :: |first| < m < |partition| ==> IsDigit(partition[m]);
    assert partition[|first|] == 'p';
    assert forall m :: 0 <= m < |second| ==> second[m] == partition[m];
    assert first == partition[..|first|] && second == partition[..|second|];
    assert first + "p" == partition[..|first| + 1] && a == partition[|first| + 1..];
    assert partition[|second|] == if partition == second + b then b[0] else 'p';
    var last := if |second| > 0 then second[|second| - 1] else '/';
    assert |second| > |first| + 1 ==> IsDigit(last);
    assert b == partition[|partition| - |b|..];
  }

  /** A partition belongs to one disk. If two disk paths both explain it, one is the other
      with the separator, and the number is the same. */
  lemma DiskOfPartition(partition: string, first: string, second: string)
    requires PartitionNumber(partition, first).Some? && PartitionNumber(partition, second).Some?
    requires |first| <= |second|
    ensures PartitionNumber(partition, first) == PartitionNumber(partition, second)
    ensures second == first || second == first + "p"
  {
    NumberParts(partition, first);
    NumberParts(partition, second);
    var a, b := NumberDigits(partition, first).value, NumberDigits(partition, second).value;
    if partition == first + a {
      DigitsRunOut(partition, first, a, second, b);
    } else {
      SeparatorSplits(partition, first, a, second, b);
    }
  }

  /** Different paths can give the same number: a leading zero is accepted. */
  lemma NumberNotInjective()
    ensures PartitionNumber("a1", "a") == Some(1) && PartitionNumber("a01", "a") == Some(1)
    ensures PartitionNumber("ap1", "a") == Some(1)
  {
    assert "a1"[1..] == "1" && "a01"[1..] == "01" && "ap1"[1..] == "p1" && "p1"[1..] == "1";
    assert "1"[..0] == "" && "01"[..1] == "0" && "0"[..0] == "";
    assert DecimalValue("1") == 1 && DecimalValue("0") == 0 && DecimalValue("01") == 1;
  }
}
