/** The string operations the memory search relies on: `str.lower`, `in` on strings, `str(int)`. */
module Text {

  /** One character of `str.lower`, restricted to ASCII letters. */
  function LowerChar(c: char): (r: char)
    ensures 'A' <= c <= 'Z' ==> 'a' <= r <= 'z' && r as int - c as int == 32
    ensures !('A' <= c <= 'Z') ==> r == c
  {
    if 'A' <= c <= 'Z' then (c as int + 32) as char else c
  }

  /** `s.lower()`, ASCII letters only. */
  function Lower(s: string): (r: string)
    ensures |r| == |s|
  {
    if s == [] then [] else [LowerChar(s[0])] + Lower(s[1..])
  }

  /** Lower-casing works position by position. */
  lemma {:induction false} LowerAt(s: string)
    ensures forall i :: 0 <= i < |s| ==> Lower(s)[i] == LowerChar(s[i])
  {
    if s != [] {
      LowerAt(s[1..]);
      assert forall i :: 1 <= i < |s| ==> Lower(s)[i] == Lower(s[1..])[i - 1];
    }
  }

  /** `q` occurs in `t` starting at position `i`. */
  ghost predicate OccursAt(q: string, t: string, i: int) {
    0 <= i && i + |q| <= |t| && t[i..i + |q|] == q
  }

  /** Occurrences in `t[1..]` are the occurrences in `t` shifted by one. */
  lemma OccursShift(q: string, t: string)
    requires |t| >= 1
    ensures forall i :: 0 <= i ==> (OccursAt(q, t[1..], i) <==> OccursAt(q, t, i + 1))
  {
    forall i | 0 <= i ensures OccursAt(q, t[1..], i) <==> OccursAt(q, t, i + 1) {
      if 0 <= i && i + |q| <= |t| - 1 {
        assert t[1..][i..i + |q|] == t[i + 1..i + 1 + |q|];
      }
    }
  }

  /** Python's `q in t`: compare `q` with each prefix of `t` and its tails. */
  function Contains(q: string, t: string): bool
    decreases |t|
  {
    if |q| > |t| then false
    else if t[..|q|] == q then true
    else Contains(q, t[1..])
  }

  /** `q in t` holds exactly when some slice of `t` equals `q` (the empty string occurs everywhere). */
  lemma {:induction false} ContainsSpec(q: string, t: string)
    ensures Contains(q, t) <==> exists i :: OccursAt(q, t, i)
    decreases |t|
  {
    if |q| > |t| {
    } else if t[..|q|] == q {
      assert OccursAt(q, t, 0);
    } else {
      ContainsSpec(q, t[1..]);
      OccursShift(q, t);
      forall i | OccursAt(q, t, i) ensures OccursAt(q, t[1..], i - 1) {
        assert i != 0;
      }
    }
  }

  /** Every string occurs in itself, and the empty string occurs in every string. */
  lemma ContainsTrivial(q: string, t: string)
    ensures Contains(q, q)
    ensures Contains([], t)
  {
    assert OccursAt(q, q, 0);
    assert OccursAt([], t, 0);
    ContainsSpec(q, q);
    ContainsSpec([], t);
  }

  /** A string found inside `b` is found inside anything built around `b`. */
  lemma ContainsInside(q: string, a: string, b: string, c: string)
    requires Contains(q, b)
    ensures Contains(q, a + b + c)
  {
    ContainsSpec(q, b);
    var i :| OccursAt(q, b, i);
    assert (a + b + c)[|a| + i..|a| + i + |q|] == b[i..i + |q|];
    assert OccursAt(q, a + b + c, |a| + i);
    ContainsSpec(q, a + b + c);
  }

  /** Being a substring is transitive. */
  lemma ContainsTransitive(a: string, b: string, c: string)
    requires Contains(a, b) && Contains(b, c)
    ensures Contains(a, c)
  {
    ContainsSpec(a, b);
    ContainsSpec(b, c);
    ContainsSpec(a, c);
    var i :| OccursAt(a, b, i);
    var j :| OccursAt(b, c, j);
    var x := c[j + i..j + i + |a|];
    forall k | 0 <= k < |a| ensures x[k] == a[k] {
      assert x[k] == c[j + i + k] == c[j..j + |b|][i + k] == b[i + k] == b[i..i + |a|][k];
    }
    assert x == a;
    assert OccursAt(a, c, j + i);
  }

  /** Lower-casing both sides keeps a match. */
  lemma ContainsLower(q: string, t: string)
    requires Contains(q, t)
    ensures Contains(Lower(q), Lower(t))
  {
    ContainsSpec(q, t);
    ContainsSpec(Lower(q), Lower(t));
    LowerAt(q);
    LowerAt(t);
    var i :| OccursAt(q, t, i);
    assert Lower(t)[i..i + |q|] == Lower(q) by {
      forall k | 0 <= k < |q| ensures Lower(t)[i..i + |q|][k] == Lower(q)[k] {
        assert t[i..i + |q|][k] == q[k];
      }
    }
    assert OccursAt(Lower(q), Lower(t), i);
  }

  /** `sep.join(parts)`. */
  function Join(sep: string, parts: seq<string>): string {
    if parts == [] then ""
    else if |parts| == 1 then parts[0]
    else parts[0] + sep + Join(sep, parts[1..])
  }

  /** Each part occurs in the joined text. */
  lemma {:induction false} JoinContains(sep: string, parts: seq<string>, j: nat)
    requires j < |parts|
    ensures Contains(parts[j], Join(sep, parts))
  {
    var q := parts[j];
    if |parts| == 1 {
      ContainsTrivial(q, "");
    } else {
      var head, rest := parts[0], Join(sep, parts[1..]);
      if j == 0 {
        ContainsTrivial(head, "");
        ContainsInside(head, "", head, sep + rest);
        assert "" + head + (sep + rest) == head + sep + rest;
      } else {
        JoinContains(sep, parts[1..], j - 1);
        ContainsInside(q, head + sep, rest, "");
        assert head + sep + rest + "" == head + sep + rest;
      }
    }
  }

  /** One decimal digit. */
  function Digit(d: int): (c: char)
    requires 0 <= d < 10
    ensures '0' <= c <= '9' && c as int - '0' as int == d
  {
    ('0' as int + d) as char
  }

  /** The decimal digits of a natural number, most significant first. */
  function NatToString(n: nat): (s: string)
    ensures |s| >= 1
    ensures forall i :: 0 <= i < |s| ==> '0' <= s[i] <= '9'
    ensures n < 10 <==> |s| == 1
    decreases n
  {
    if n < 10 then [Digit(n)] else NatToString(n / 10) + [Digit(n % 10)]
  }

  /** `str(n)` for an integer: an optional minus sign, then the digits. */
  function IntToString(n: int): (s: string)
    ensures |s| >= 1
    ensures n < 0 <==> s[0] == '-'
  {
    if n < 0 then "-" + NatToString(-n) else NatToString(n)
  }
}
