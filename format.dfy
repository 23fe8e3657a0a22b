/** `human_size` (src/main.rs:247-262) and the size-column width of
    `print_table` (src/main.rs:218-224). */
module Format {
  import opened Items

  const UNITS: seq<string> := ["B", "KB", "MB", "GB", "TB"]

  /** 1024 to the k-th power: the first byte count shown in UNITS[k]. */
  function Pow1024(k: nat): (p: nat)
    ensures p >= 1
  {
    if k == 0 then 1 else 1024 * Pow1024(k - 1)
  }

  function DigitChar(d: nat): char
    requires d < 10
  {
    (48 + d) as char
  }

  predicate IsDigit(c: char) {
    48 <= c as int <= 57
  }

  /** The decimal text of a count, as `{}` renders a `u64`. */
  function Decimal(n: nat): string
  {
    if n < 10 then [DigitChar(n)] else Decimal(n / 10) + [DigitChar(n % 10)]
  }

  /** Reads decimal digits back into a number. */
  function ParseDecimal(s: string): nat
    requires forall i :: 0 <= i < |s| ==> IsDigit(s[i])
  {
    if s == [] then 0
    else
      assert IsDigit(s[|s| - 1]);
      10 * ParseDecimal(s[..|s| - 1]) + (s[|s| - 1] as int - 48)
  }

  /** The rendering is made of digits, has no leading zero, and reads back
      as the same number. */
  lemma {:induction false} DecimalRoundTrip(n: nat)
    ensures |Decimal(n)| >= 1
    ensures forall i :: 0 <= i < |Decimal(n)| ==> IsDigit(Decimal(n)[i])
    ensures Decimal(n)[0] == '0' ==> n == 0
    ensures ParseDecimal(Decimal(n)) == n
  {
    if n >= 10 {
      DecimalRoundTrip(n / 10);
      var s := Decimal(n);
      assert s[..|s| - 1] == Decimal(n / 10);
    }
  }

  /** A count below 1024 takes at most four digits. */
  lemma DecimalShort(n: nat)
    requires n < 1024
    ensures |Decimal(n)| <= 4
  {
    if n >= 10 {
      assert Decimal(n) == Decimal(n / 10) + [DigitChar(n % 10)];
      if n / 10 >= 10 {
        assert Decimal(n / 10) == Decimal(n / 100) + [DigitChar(n / 10 % 10)];
        if n / 100 >= 10 {
          assert n / 1000 < 10;
        }
      }
    }
  }

  /** What `human_size` renders: a byte count below 1024 as itself with
      unit B; anything larger as a real quotient and the index of its unit
      in UNITS (the quotient is printed with two decimals). */
  datatype SizeText = Exact(text: string) | Scaled(value: real, unitIndex: nat)

  /** `human_size`: below 1024 bytes the number and " B"; otherwise divide
      by 1024 while the quotient is at least 1024 and a larger unit exists.
      The chosen unit is the largest one, up to TB, that the count reaches. */
  method HumanSize(bytes: u64) returns (r: SizeText)
    ensures bytes < 1024 ==> r == Exact(Decimal(bytes as nat) + " B") && |r.text| <= 6
    ensures bytes >= 1024 ==> r.Scaled? && 1 <= r.unitIndex < |UNITS|
    ensures r.Scaled? ==> Pow1024(r.unitIndex) <= bytes as nat
    ensures r.Scaled? && r.unitIndex < |UNITS| - 1 ==> bytes as nat < Pow1024(r.unitIndex + 1)
    ensures r.Scaled? ==> r.value * (Pow1024(r.unitIndex) as real) == bytes as real
    ensures r.Scaled? ==> 1.0 <= r.value && (r.unitIndex < |UNITS| - 1 ==> r.value < 1024.0)
  {
    if bytes < 1024 {
      DecimalShort(bytes as nat);
      return Exact(Decimal(bytes as nat) + " B");
    }
    var value: real := bytes as real;
    var idx: nat := 0;
    ghost var p: real := 1.0;
    while value >= 1024.0 && idx < |UNITS| - 1
      invariant idx < |UNITS| && p == Pow1024(idx) as real
      invariant value * p == bytes as real
      invariant Pow1024(idx) <= bytes as nat
    {
      ScaleCompare(value, p, bytes as real);
      ScaleStep(value, p, bytes as real);
      value := value / 1024.0;
      idx := idx + 1;
      p := 1024.0 * p;
    }
    ScaleCompare(value, p, bytes as real);
    ScaleAtLeastOne(value, p, bytes as real);
    r := Scaled(value, idx);
  }

  /** Comparing the quotient with 1024 is comparing the count with the
      next power of 1024. */
  lemma ScaleCompare(value: real, p: real, b: real)
    requires p >= 1.0 && value * p == b
    ensures value >= 1024.0 <==> b >= 1024.0 * p
  {
    if value >= 1024.0 {
      assert (value - 1024.0) * p >= 0.0;
    } else {
      assert (1024.0 - value) * p > 0.0;
    }
  }

  /** Dividing the quotient by 1024 keeps it the count over the next power. */
  lemma ScaleStep(value: real, p: real, b: real)
    requires value * p == b
    ensures (value / 1024.0) * (1024.0 * p) == b
  {
  }

  lemma ScaleAtLeastOne(value: real, p: real, b: real)
    requires p >= 1.0 && value * p == b && p <= b
    ensures value >= 1.0
  {
    assert (value - 1.0) * p == b - p >= 0.0;
  }

  /** The largest element of a list of lengths (`Iterator::max`). */
  function MaxLen(sizes: seq<string>): (m: Option<nat>)
    ensures m.None? <==> sizes == []
    ensures m.Some? ==> (forall s :: s in sizes ==> |s| <= m.value) && exists s :: s in sizes && |s| == m.value
  {
    if sizes == [] then None
    else
      var rest := MaxLen(sizes[1..]);
      assert forall s :: s in sizes <==> s == sizes[0] || s in sizes[1..];
      if rest.None? || rest.value < |sizes[0]| then Some(|sizes[0]|) else rest
  }

  /** The width of the size column: the longest rendered size, but never
      less than 4 (the width of the heading "Size"). Rendered sizes are
      ASCII, so their character count is their byte length. */
  function SizeWidth(sizes: seq<string>): (w: nat)
    ensures w >= 4
    ensures forall s :: s in sizes ==> |s| <= w
    ensures w == 4 || exists s :: s in sizes && |s| == w
  {
    var m := MaxLen(sizes);
    var longest := if m.Some? then m.value else 4;
    if longest < 4 then 4 else longest
  }
}
