/** The label catalog: the ordered species labels indexed by classifier output
    channel, the synthetic catalog used when no label file can be read, and the
    lookup that falls back to the decimal index for channels beyond the catalog. */
module Labels {

  /** Number of entries in the synthetic catalog built when no label file is usable. */
  const FallbackSize: nat := 11000

  predicate IsDigit(c: char) {
    '0' <= c <= '9'
  }

  predicate AllDigits(s: string) {
    forall i :: 0 <= i < |s| ==> IsDigit(s[i])
  }

  /** Decimal text as Python's `str` writes a non-negative integer: at least one
      digit, digits only, and no leading zero unless the text is a single digit. */
  predicate Canonical(s: string) {
    1 <= |s| && AllDigits(s) && (|s| == 1 || s[0] != '0')
  }

  function DigitValue(c: char): (d: nat)
    requires IsDigit(c)
    ensures d < 10
  {
    c as int - '0' as int
  }

  function DigitChar(d: nat): (c: char)
    requires d < 10
    ensures IsDigit(c) && DigitValue(c) == d
  {
    (d + '0' as int) as char
  }

  /** The decimal text of a non-negative integer, as Python's `str` writes it:
      digits only, and no leading zero except for zero itself. */
  function NatToString(n: nat): (s: string)
    ensures 1 <= |s| && AllDigits(s)
    ensures (s[0] == '0') == (n == 0)
    ensures (|s| == 1) == (n < 10)
    decreases n
  {
    if n < 10 then [DigitChar(n)] else NatToString(n / 10) + [DigitChar(n % 10)]
  }

  /** The number a string of decimal digits denotes (the reading direction of NatToString). */
  function ParseDecimal(s: string): nat
    requires AllDigits(s)
    decreases |s|
  {
    if s == [] then 0 else 10 * ParseDecimal(s[..|s| - 1]) + DigitValue(s[|s| - 1])
  }

  /** Reading back the decimal text of `n` gives `n`. */
  lemma {:induction false} ParseNatToString(n: nat)
    ensures ParseDecimal(NatToString(n)) == n
    decreases n
  {
    var s := NatToString(n);
    if n < 10 {
      assert s[..|s| - 1] == [];
    } else {
      ParseNatToString(n / 10);
      assert s[..|s| - 1] == NatToString(n / 10);
    }
  }

  /** A digit string without a leading zero denotes a positive number. */
  lemma {:induction false} ParseLeadingNonzero(s: string)
    requires AllDigits(s) && 1 <= |s| && s[0] != '0'
    ensures ParseDecimal(s) > 0
    decreases |s|
  {
    if |s| > 1 {
      ParseLeadingNonzero(s[..|s| - 1]);
    }
  }

  /** The decimal text of `n` is the only canonical digit string that reads
      back as `n`. */
  lemma {:induction false} CanonicalDecimalUnique(s: string, n: nat)
    requires Canonical(s) && ParseDecimal(s) == n
    ensures s == NatToString(n)
    decreases |s|
  {
    var prefix := s[..|s| - 1];
    if |s| == 1 {
      assert prefix == [];
      assert DigitChar(DigitValue(s[0])) == s[0];
    } else {
      ParseLeadingNonzero(prefix);
      var m := ParseDecimal(prefix);
      assert n / 10 == m && n % 10 == DigitValue(s[|s| - 1]);
      CanonicalDecimalUnique(prefix, m);
      assert DigitChar(DigitValue(s[|s| - 1])) == s[|s| - 1];
      assert s == prefix + [s[|s| - 1]];
    }
  }

  /** Distinct indices have distinct decimal texts. */
  lemma NatToStringInjective(a: nat, b: nat)
    ensures NatToString(a) == NatToString(b) ==> a == b
  {
    ParseNatToString(a);
    ParseNatToString(b);
  }

  /** The catalog used when no label file can be read: `["0", "1", …, "10999"]`. */
  function FallbackCatalog(): (labels: seq<string>)
    ensures |labels| == FallbackSize
    ensures forall i :: 0 <= i < |labels| ==> AllDigits(labels[i]) && ParseDecimal(labels[i]) == i
    ensures forall i :: 0 <= i < |labels| ==> Canonical(labels[i])
  {
    var labels := seq(FallbackSize, i requires 0 <= i => NatToString(i));
    assert forall i :: 0 <= i < |labels| ==> ParseDecimal(labels[i]) == i by {
      forall i | 0 <= i < |labels| ensures ParseDecimal(labels[i]) == i {
        ParseNatToString(i);
      }
    }
    labels
  }

  /** The label shown for classifier channel `idx`: the catalog entry when the
      catalog reaches that far, otherwise the decimal text of `idx`. */
  function LabelFor(labels: seq<string>, idx: nat): (name: string)
    ensures idx < |labels| ==> name == labels[idx]
    ensures |labels| <= idx ==> AllDigits(name) && ParseDecimal(name) == idx
    ensures |labels| <= idx ==> Canonical(name)
  {
    if idx < |labels| then labels[idx]
    else
      ParseNatToString(idx);
      NatToString(idx)
  }

  /** Under the synthetic catalog every channel, inside the catalog or beyond it,
      is labelled with its own decimal index. */
  lemma FallbackLabelIsIndex(idx: nat)
    ensures LabelFor(FallbackCatalog(), idx) == NatToString(idx)
  {
    var labels := FallbackCatalog();
    if idx < |labels| {
      assert labels[idx] == NatToString(idx);
    }
  }

  /** Under the synthetic catalog two channels never share a label, so a label
      identifies its channel. */
  lemma FallbackLabelsDistinct(i: nat, j: nat)
    ensures LabelFor(FallbackCatalog(), i) == LabelFor(FallbackCatalog(), j) <==> i == j
  {
    FallbackLabelIsIndex(i);
    FallbackLabelIsIndex(j);
    NatToStringInjective(i, j);
  }
}
