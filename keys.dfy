/** The occupancy keys of the bugs: `` `${row},${col}` `` strings kept in a `Set`. */
module Keys {
  /** The decimal digit of `d`. */
  function Digit(d: nat): (c: char)
    requires d < 10
    ensures '0' <= c <= '9'
  {
    "0123456789"[d]
  }

  /** The decimal numeral of `n`, as JavaScript prints a non-negative integer. */
  function NatToString(n: nat): (s: string)
    ensures |s| > 0 && '0' <= s[0] <= '9' && ',' !in s
    ensures n < 10 <==> |s| == 1
  {
    if n < 10 then [Digit(n)] else NatToString(n / 10) + [Digit(n % 10)]
  }

  /** The decimal numeral of `i`, with a leading `-` when negative. */
  function IntToString(i: int): (s: string)
    ensures ',' !in s
  {
    if i < 0 then "-" + NatToString(-i) else NatToString(i)
  }

  /** The template `` `${row},${col}` `` of `Bug.key`. */
  function Key(row: int, col: int): string
  {
    IntToString(row) + "," + IntToString(col)
  }

  lemma DigitInjective(a: nat, b: nat)
    requires a < 10 && b < 10 && Digit(a) == Digit(b)
    ensures a == b
  {
  }

  /** Different numbers print differently. */
  lemma {:induction false} NatToStringInjective(a: nat, b: nat)
    requires NatToString(a) == NatToString(b)
    ensures a == b
    decreases a
  {
    var s := NatToString(a);
    if a < 10 {
      assert b < 10;
      DigitInjective(a, b);
    } else {
      assert b >= 10;
      assert s == NatToString(a / 10) + [Digit(a % 10)];
      assert s == NatToString(b / 10) + [Digit(b % 10)];
      assert Digit(a % 10) == s[|s| - 1] == Digit(b % 10);
      DigitInjective(a % 10, b % 10);
      assert NatToString(a / 10) == s[..|s| - 1] == NatToString(b / 10);
      NatToStringInjective(a / 10, b / 10);
    }
  }

  lemma IntToStringInjective(a: int, b: int)
    requires IntToString(a) == IntToString(b)
    ensures a == b
  {
    var s := IntToString(a);
    if a < 0 {
      assert s[0] == '-';
      assert NatToString(-a) == s[1..] == NatToString(-b);
      NatToStringInjective(-a, -b);
    } else {
      NatToStringInjective(a, b);
    }
  }

  /** The position of the first comma of `s`, or `|s|` when there is none. */
  function CommaIndex(s: string): (i: nat)
    ensures i <= |s|
  {
    if s == [] then 0 else if s[0] == ',' then 0 else 1 + CommaIndex(s[1..])
  }

  lemma {:induction false} CommaAfter(x: string, y: string)
    requires ',' !in x
    ensures CommaIndex(x + "," + y) == |x|
  {
    if x != [] {
      assert (x + "," + y)[1..] == x[1..] + "," + y;
      CommaAfter(x[1..], y);
    }
  }

  /** A string joined by its first comma splits back into the same two parts. */
  lemma SplitAtComma(x1: string, y1: string, x2: string, y2: string)
    requires ',' !in x1 && ',' !in x2
    requires x1 + "," + y1 == x2 + "," + y2
    ensures x1 == x2 && y1 == y2
  {
    var s := x1 + "," + y1;
    CommaAfter(x1, y1);
    CommaAfter(x2, y2);
    assert x1 == s[..|x1|] == x2;
    assert y1 == s[|x1| + 1..] == y2;
  }

  /** Distinct cells have distinct keys, so the set of keys stands for the set of cells. */
  lemma KeyInjective(r1: int, c1: int, r2: int, c2: int)
    requires Key(r1, c1) == Key(r2, c2)
    ensures r1 == r2 && c1 == c2
  {
    SplitAtComma(IntToString(r1), IntToString(c1), IntToString(r2), IntToString(c2));
    IntToStringInjective(r1, r2);
    IntToStringInjective(c1, c2);
  }

  /** A JavaScript `Set` of keys, mutated in place. */
  class KeySet {
    var members: set<string>

    constructor ()
      ensures members == {}
    {
      members := {};
    }

    /** `Set.prototype.has`. */
    function Has(k: string): (b: bool)
      reads this
      ensures b <==> k in members
    {
      k in members
    }

    /** `Set.prototype.add`. */
    method Add(k: string)
      modifies this
      ensures members == old(members) + {k}
    {
      members := members + {k};
    }
  }
}
