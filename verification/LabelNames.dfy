/** The label names the policy compiler generates never collide. */
module LabelNames {
  import opened Words

  /** What a generated label stands for. */
  datatype Name =
    | Kill
    | Block(nr: nat)
    | Next(nr: nat, i: nat)
    | Hit(nr: nat, i: nat, j: nat)

  /** Decimal digits, as an f-string formats a non-negative int. */
  function Dec(n: nat): string {
    if n < 10 then [Digit(n)] else Dec(n / 10) + [Digit(n % 10)]
  }

  function Digit(d: nat): char
    requires d < 10
  {
    ('0' as int + d) as char
  }

  /** The label string. */
  function Render(n: Name): string {
    match n
    case Kill => "kill"
    case Block(nr) => "block_" + Dec(nr)
    case Next(nr, i) => "next_" + (Dec(nr) + "_" + Dec(i))
    case Hit(nr, i, j) => "hit_" + (Dec(nr) + "_" + (Dec(i) + "_" + Dec(j)))
  }

  /** The number a digit string denotes. */
  ghost function Value(s: string): int {
    if s == [] then 0 else 10 * Value(s[..|s| - 1]) + (s[|s| - 1] as int - '0' as int)
  }

  lemma {:induction false} DecFacts(n: nat)
    ensures Value(Dec(n)) == n
    ensures '_' !in Dec(n)
  {
    if n >= 10 {
      DecFacts(n / 10);
      assert Dec(n)[..|Dec(n)| - 1] == Dec(n / 10);
    } else {
      assert Dec(n)[..0] == [];
    }
  }

  lemma DecInjective(m: nat, n: nat)
    requires Dec(m) == Dec(n)
    ensures m == n
  {
    DecFacts(m);
    DecFacts(n);
  }

  /** An underscore-free head is determined by the whole string. */
  lemma SplitUnique(a: string, b: string, c: string, d: string)
    requires '_' !in a && '_' !in c && a + "_" + b == c + "_" + d
    ensures a == c && b == d
  {
    var s := a + "_" + b;
    assert s[|a|] == '_' && s[|c|] == '_';
    assert forall i | 0 <= i < |a| :: s[i] == a[i];
    assert forall i | 0 <= i < |c| :: s[i] == c[i];
    assert a == s[..|a|] == c;
    assert b == s[|a| + 1..] == d;
  }

  lemma PrefixCancels(p: string, a: string, b: string)
    requires p + a == p + b
    ensures a == b
  {
    assert a == (p + a)[|p|..] && b == (p + b)[|p|..];
  }

  /** Distinct names have distinct labels. */
  lemma RenderInjective(m: Name, n: Name)
    requires Render(m) == Render(n)
    ensures m == n
  {
    assert Render(m)[0] == Render(n)[0];
    match m
    case Kill =>
    case Block(nr) =>
      PrefixCancels("block_", Dec(nr), Dec(n.nr));
      DecInjective(nr, n.nr);
    case Next(nr, i) =>
      PrefixCancels("next_", Dec(nr) + "_" + Dec(i), Dec(n.nr) + "_" + Dec(n.i));
      DecFacts(nr);
      DecFacts(n.nr);
      SplitUnique(Dec(nr), Dec(i), Dec(n.nr), Dec(n.i));
      DecInjective(i, n.i);
    case Hit(nr, i, j) =>
      var t, u := Dec(i) + "_" + Dec(j), Dec(n.i) + "_" + Dec(n.j);
      PrefixCancels("hit_", Dec(nr) + "_" + t, Dec(n.nr) + "_" + u);
      DecFacts(nr);
      DecFacts(n.nr);
      SplitUnique(Dec(nr), t, Dec(n.nr), u);
      DecFacts(i);
      DecFacts(n.i);
      SplitUnique(Dec(i), Dec(j), Dec(n.i), Dec(n.j));
      DecInjective(j, n.j);
  }

  /** Reads a label back. */
  ghost function NameOf(s: string): Option<Name> {
    if n: Name :| Render(n) == s then Some(n) else None
  }

  lemma NameOfRender()
    ensures forall n: Name :: NameOf(Render(n)) == Some(n)
  {
    forall n: Name ensures NameOf(Render(n)) == Some(n) {
      var m := NameOf(Render(n)).value;
      RenderInjective(m, n);
    }
  }
}
