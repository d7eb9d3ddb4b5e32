/** The keys `group_1`, `group_2`, ... that `processTabGroups` gives its groups
    (src/background/background.ts:105): the template literal renders the group number
    in decimal. */
module GroupKeys {

  function DigitChar(d: nat): char
    requires d < 10
  {
    (48 + d) as char
  }

  /** The decimal numeral of n, without leading zeros, as a template literal renders it. */
  function Decimal(n: nat): (r: string)
    ensures |r| >= 1
    ensures forall k :: 0 <= k < |r| ==> '0' <= r[k] <= '9'
    ensures n == 0 || r[0] != '0'
    decreases n
  {
    if n < 10 then [DigitChar(n)] else Decimal(n / 10) + [DigitChar(n % 10)]
  }

  /** Reads a string of decimal digits back as a number. */
  function ParseDecimal(s: string): nat
    requires forall k :: 0 <= k < |s| ==> '0' <= s[k] <= '9'
  {
    if |s| == 0 then 0
    else ParseDecimal(s[..|s| - 1]) * 10 + (s[|s| - 1] as int - 48)
  }

  /** Reading the numeral back gives the number: Decimal loses nothing. */
  lemma {:induction false} ParseDecimalOfDecimal(n: nat)
    ensures ParseDecimal(Decimal(n)) == n
    decreases n
  {
    if n >= 10 {
      ParseDecimalOfDecimal(n / 10);
      assert Decimal(n)[..|Decimal(n)| - 1] == Decimal(n / 10);
    } else {
      assert Decimal(n)[..0] == [];
    }
  }

  /** Different numbers have different numerals. */
  lemma DecimalInjective(a: nat, b: nat)
    ensures Decimal(a) == Decimal(b) <==> a == b
  {
    ParseDecimalOfDecimal(a);
    ParseDecimalOfDecimal(b);
  }

  /** The key of the group created as the k-th one. */
  function GroupKey(k: nat): string
  {
    "group_" + Decimal(k)
  }

  /** Group numbers and keys determine each other, so `group_(count + 1)` is never the key
      of a group that already exists. */
  lemma GroupKeyInjective(a: nat, b: nat)
    ensures GroupKey(a) == GroupKey(b) <==> a == b
  {
    if GroupKey(a) == GroupKey(b) {
      assert GroupKey(a)[6..] == Decimal(a);
      assert GroupKey(b)[6..] == Decimal(b);
      DecimalInjective(a, b);
    }
  }

  lemma GroupKeyExamples()
    ensures GroupKey(1) == "group_1"
    ensures GroupKey(12) == "group_12"
  {
  }
}
