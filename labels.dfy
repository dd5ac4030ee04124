/** Column labels of the retention matrix: `Total usuarios`, then
    `Mes 0` ... `Mes K-1`, where the number is written in decimal as
    Python's f-string writes a non-negative int. */
module Labels {
  import opened Seqs

  const TotalLabel := "Total usuarios"

  predicate IsDigit(c: char) {
    '0' <= c <= '9'
  }

  function DigitChar(d: nat): (c: char)
    requires d < 10
    ensures IsDigit(c)
  {
    ('0' as int + d) as char
  }

  function DigitValue(c: char): (d: nat)
    requires IsDigit(c)
    ensures d < 10
  {
    c as int - '0' as int
  }

  /** The decimal digits of n, most significant first, with no leading zero. */
  function NatToString(n: nat): (s: string)
    ensures |s| >= 1
    ensures forall i :: 0 <= i < |s| ==> IsDigit(s[i])
    ensures |s| > 1 ==> s[0] != '0'
    decreases n
  {
    if n < 10 then [DigitChar(n)] else NatToString(n / 10) + [DigitChar(n % 10)]
  }

  /** Reads a string of decimal digits back as a number. */
  function ParseNat(s: string): nat
    requires forall i :: 0 <= i < |s| ==> IsDigit(s[i])
  {
    if s == [] then 0 else ParseNat(s[..|s| - 1]) * 10 + DigitValue(s[|s| - 1])
  }

  /** Reading the decimal form of n gives n back. */
  lemma {:induction false} ParseNatToString(n: nat)
    ensures ParseNat(NatToString(n)) == n
    decreases n
  {
    var s := NatToString(n);
    if n >= 10 {
      ParseNatToString(n / 10);
      assert s[..|s| - 1] == NatToString(n / 10);
    }
  }

  /** Distinct numbers have distinct decimal forms. */
  lemma NatToStringInjective(a: nat, b: nat)
    ensures NatToString(a) == NatToString(b) ==> a == b
  {
    ParseNatToString(a);
    ParseNatToString(b);
  }

  /** Line 69: the label of month offset i is `Mes ` followed by i in decimal. */
  function OffsetLabel(i: nat): string {
    "Mes " + NatToString(i)
  }

  /** Line 69: the header for k offsets is `Total usuarios`, then the labels
      of offsets 0 to k-1. */
  function Header(k: nat): seq<string> {
    [TotalLabel] + seq(k, i requires 0 <= i => OffsetLabel(i))
  }

  /** The header has one column for the cohort size and one per offset, and
      no two of its labels coincide. */
  lemma HeaderSpec(k: nat)
    ensures |Header(k)| == 1 + k
    ensures Header(k)[0] == TotalLabel
    ensures forall i :: 0 <= i < k ==> Header(k)[1 + i] == OffsetLabel(i)
    ensures Distinct(Header(k))
  {
    var h := Header(k);
    forall i, j | 0 <= i < j < |h| ensures h[i] != h[j] {
      if i == 0 {
        assert h[j][0] == 'M' && TotalLabel[0] == 'T';
      } else {
        var a, b := NatToString(i - 1), NatToString(j - 1);
        NatToStringInjective(i - 1, j - 1);
        assert h[i][4..] == a && h[j][4..] == b;
      }
    }
  }
}
