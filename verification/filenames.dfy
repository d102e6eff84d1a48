/**
  The key-log file naming scheme: the first file is the bare pattern and
  file number `n > 1` is `pattern + "." + decimal(n)`. The scheme is
  injective on positive numbers, which is why the allocator never hands
  the same name out twice.
 */
module FileNames {
  import opened Wrappers
  import opened Decimal

  /** The name derived for counter value `n`. */
  function FileName(pattern: string, n: int): (name: string)
    ensures |pattern| <= |name| && name[..|pattern|] == pattern
    ensures name == pattern <==> n <= 1
  {
    if n > 1 then pattern + "." + Format(n) else pattern
  }

  /** Recovers the counter value from a name of the scheme, or `None` for any other name. */
  function SequenceNumber(pattern: string, name: string): (r: Option<nat>)
    ensures r.Some? ==> r.value >= 1
  {
    if name == pattern then
      Some(1)
    else if
      && |name| > |pattern| + 1
      && name[..|pattern|] == pattern
      && name[|pattern|] == '.'
      && IsCanonical(name[|pattern| + 1..])
      && Parse(name[|pattern| + 1..]) > 1
    then
      Some(Parse(name[|pattern| + 1..]))
    else
      None
  }

  /** Every derived name reads back as the number it was derived from. */
  lemma SequenceNumberOfFileName(pattern: string, n: int)
    requires n >= 1
    ensures SequenceNumber(pattern, FileName(pattern, n)) == Some(n)
  {
    var name := FileName(pattern, n);
    if n > 1 {
      assert name[|pattern| + 1..] == Format(n);
      ParseFormat(n);
    }
  }

  /** Every name that reads back as a number is the name derived from it. */
  lemma FileNameOfSequenceNumber(pattern: string, name: string)
    requires SequenceNumber(pattern, name).Some?
    ensures FileName(pattern, SequenceNumber(pattern, name).value) == name
  {
    if name != pattern {
      var digits := name[|pattern| + 1..];
      FormatParse(digits);
      assert name == pattern + "." + digits;
    }
  }

  /** Distinct positive counter values give distinct names. */
  lemma FileNameInjective(pattern: string, a: int, b: int)
    requires a >= 1 && b >= 1
    requires FileName(pattern, a) == FileName(pattern, b)
    ensures a == b
  {
    SequenceNumberOfFileName(pattern, a);
    SequenceNumberOfFileName(pattern, b);
  }
}
