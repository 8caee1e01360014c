/** The few java.lang.String operations the test suite relies on, stated over
    `seq<char>`: ASCII lower-casing, equalsIgnoreCase, contains, trim,
    String.join, String.format restricted to `%s`, and decimal rendering of
    integers as `%d` and Long.toString produce it. */
module JavaStrings {

  // ---------------------------------------------------------------- lowering

  predicate IsUpper(c: char) { 'A' <= c <= 'Z' }

  /** Character.toLowerCase restricted to ASCII letters. */
  function LowerChar(c: char): (r: char)
    ensures !IsUpper(r)
    ensures IsUpper(c) || r == c
  {
    if IsUpper(c) then (c as int + 32) as char else c
  }

  /** String.toLowerCase, ASCII letters only. */
  function Lower(s: string): (r: string)
    ensures |r| == |s|
    ensures forall i :: 0 <= i < |s| ==> r[i] == LowerChar(s[i])
  {
    seq(|s|, i requires 0 <= i < |s| => LowerChar(s[i]))
  }

  /** A string that lower-casing leaves alone. */
  predicate IsLowered(s: string) { forall i :: 0 <= i < |s| ==> !IsUpper(s[i]) }

  lemma LowerIsLowered(s: string)
    ensures IsLowered(Lower(s))
    ensures Lower(Lower(s)) == Lower(s)
  {
  }

  lemma LowerOfLowered(s: string)
    requires IsLowered(s)
    ensures Lower(s) == s
  {
  }

  lemma LowerConcat(a: string, b: string)
    ensures Lower(a + b) == Lower(a) + Lower(b)
  {
  }

  /** Regrouping a concatenation; stated for use on literals, where the
      solver otherwise compares character by character. */
  lemma ConcatAssoc(a: string, b: string, c: string)
    ensures a + b + c == a + (b + c)
  {
  }

  /** The empty string is a left unit of concatenation. */
  lemma EmptyConcat(s: string)
    ensures "" + s == s
  {
  }

  /** String.equalsIgnoreCase, ASCII letters only. */
  predicate EqualsIgnoreCase(a: string, b: string) { Lower(a) == Lower(b) }

  // ------------------------------------------------------- prefix, contains

  predicate StartsWith(s: string, p: string) { |p| <= |s| && s[..|p|] == p }

  /** `t` occurs in `s` at position `i`. */
  predicate OccursAt(s: string, t: string, i: int)
  {
    0 <= i && i + |t| <= |s| && s[i..i + |t|] == t
  }

  /** String.contains: the left-to-right search for `t` in `s`. */
  predicate Contains(s: string, t: string)
    decreases |s|
  {
    StartsWith(s, t) || (|s| > 0 && Contains(s[1..], t))
  }

  /** The search finds `t` exactly when `t` occurs somewhere in `s`. */
  lemma {:induction false} ContainsIff(s: string, t: string)
    ensures Contains(s, t) <==> exists i :: OccursAt(s, t, i)
    decreases |s|
  {
    if StartsWith(s, t) {
      assert OccursAt(s, t, 0);
    } else if |s| == 0 {
      assert StartsWith(s, []);
    } else {
      ContainsIff(s[1..], t);
      if exists i :: OccursAt(s, t, i) {
        var i :| OccursAt(s, t, i);
        assert i != 0;
        assert s[1..][i - 1..i - 1 + |t|] == s[i..i + |t|];
        assert OccursAt(s[1..], t, i - 1);
      }
      if exists i :: OccursAt(s[1..], t, i) {
        var i :| OccursAt(s[1..], t, i);
        assert s[1..][i..i + |t|] == s[i + 1..i + 1 + |t|];
        assert OccursAt(s, t, i + 1);
      }
    }
  }

  lemma ContainsAt(s: string, t: string, i: int)
    requires OccursAt(s, t, i)
    ensures Contains(s, t)
  {
    ContainsIff(s, t);
  }

  /** Every string contains the empty string. */
  lemma ContainsEmpty(s: string)
    ensures Contains(s, [])
  {
    assert StartsWith(s, []);
  }

  /** A string contains itself. */
  lemma ContainsSelf(s: string)
    ensures Contains(s, s)
  {
    assert StartsWith(s, s);
  }

  /** Whatever surrounds `t`, the result contains it. */
  lemma ContainsInfix(a: string, t: string, b: string)
    ensures Contains(a + t + b, t)
  {
    assert (a + t + b)[|a|..|a| + |t|] == t;
    ContainsAt(a + t + b, t, |a|);
  }

  /** Containment survives wrapping the searched string. */
  lemma ContainsWiden(a: string, s: string, b: string, t: string)
    requires Contains(s, t)
    ensures Contains(a + s + b, t)
  {
    ContainsIff(s, t);
    var i :| OccursAt(s, t, i);
    assert (a + s + b)[|a| + i..|a| + i + |t|] == s[i..i + |t|];
    ContainsAt(a + s + b, t, |a| + i);
  }

  /** Containment passes outward: what a part contains, the whole contains. */
  lemma ContainsTransitive(s: string, t: string, u: string)
    requires Contains(s, t) && Contains(t, u)
    ensures Contains(s, u)
  {
    ContainsIff(s, t);
    ContainsIff(t, u);
    var i :| OccursAt(s, t, i);
    var j :| OccursAt(t, u, j);
    assert forall k :: 0 <= k < |u| ==> s[i + j + k] == t[j + k] == u[k];
    assert s[i + j..i + j + |u|] == u;
    ContainsAt(s, u, i + j);
  }

  /** A string cannot contain a text holding a character it lacks. */
  lemma NotContainsMissingChar(s: string, t: string, k: int)
    requires 0 <= k < |t|
    requires forall j :: 0 <= j < |s| ==> s[j] != t[k]
    ensures !Contains(s, t)
  {
    ContainsIff(s, t);
    forall i | 0 <= i && i + |t| <= |s|
      ensures !OccursAt(s, t, i)
    {
      assert s[i..i + |t|][k] != t[k];
    }
  }

  // ------------------------------------------------------------------- trim

  /** String.trim: strips every leading and trailing character at or below U+0020. */
  function Trim(s: string): (r: string)
    ensures |r| <= |s|
    ensures r == [] || (r[0] > ' ' && r[|r| - 1] > ' ')
    decreases |s|
  {
    if |s| > 0 && s[0] <= ' ' then Trim(s[1..])
    else if |s| > 0 && s[|s| - 1] <= ' ' then Trim(s[..|s| - 1])
    else s
  }

  /** An occurrence in a tail is an occurrence in the whole, one place on. */
  lemma OccursInTail(s: string, t: string, i: int)
    requires |s| > 0 && OccursAt(s[1..], t, i)
    ensures OccursAt(s, t, i + 1)
  {
    assert s[1..][i..i + |t|] == s[i + 1..i + 1 + |t|];
  }

  /** An occurrence in a prefix is an occurrence in the whole. */
  lemma OccursInPrefix(s: string, n: int, t: string, i: int)
    requires 0 <= n <= |s| && OccursAt(s[..n], t, i)
    ensures OccursAt(s, t, i)
  {
    assert s[..n][i..i + |t|] == s[i..i + |t|];
  }

  /** What trim returns is a piece of its input. */
  lemma {:induction false} TrimIsInfix(s: string)
    ensures exists i :: OccursAt(s, Trim(s), i)
    decreases |s|
  {
    if |s| > 0 && s[0] <= ' ' {
      TrimIsInfix(s[1..]);
      var i :| OccursAt(s[1..], Trim(s[1..]), i);
      OccursInTail(s, Trim(s), i);
    } else if |s| > 0 && s[|s| - 1] <= ' ' {
      TrimIsInfix(s[..|s| - 1]);
      var i :| OccursAt(s[..|s| - 1], Trim(s[..|s| - 1]), i);
      OccursInPrefix(s, |s| - 1, Trim(s), i);
    } else {
      assert s[0..|s|] == s;
      assert OccursAt(s, Trim(s), 0);
    }
  }

  /** Trim leaves a string alone that starts and ends with a visible character. */
  lemma TrimVisible(s: string)
    requires |s| > 0 && s[0] > ' ' && s[|s| - 1] > ' '
    ensures Trim(s) == s
  {
  }

  // ------------------------------------------------------------------- join

  /** String.join / Collectors.joining: the parts in order, separated by `sep`. */
  function Join(sep: string, parts: seq<string>): (r: string)
    ensures |parts| == 1 ==> r == parts[0]
    decreases |parts|
  {
    if |parts| == 0 then ""
    else if |parts| == 1 then parts[0]
    else parts[0] + sep + Join(sep, parts[1..])
  }

  /** The joined text shows every part. */
  lemma {:induction false} JoinContainsEach(sep: string, parts: seq<string>, k: int)
    requires 0 <= k < |parts|
    ensures Contains(Join(sep, parts), parts[k])
    decreases |parts|
  {
    if |parts| == 1 {
      ContainsSelf(parts[0]);
    } else if k == 0 {
      ContainsInfix([], parts[0], sep + Join(sep, parts[1..]));
      assert [] + parts[0] + (sep + Join(sep, parts[1..])) == Join(sep, parts);
    } else {
      JoinContainsEach(sep, parts[1..], k - 1);
      ContainsWiden(parts[0] + sep, Join(sep, parts[1..]), [], parts[k]);
      assert parts[0] + sep + Join(sep, parts[1..]) + [] == Join(sep, parts);
    }
  }

  // ------------------------------------------------- String.format with %s

  /** A template in which every `%` starts a `%s` conversion. */
  predicate WellFormedTemplate(t: string)
    decreases |t|
  {
    if |t| == 0 then true
    else if t[0] == '%' then |t| >= 2 && t[1] == 's' && WellFormedTemplate(t[2..])
    else WellFormedTemplate(t[1..])
  }

  /** Number of `%s` conversions in a well-formed template. */
  function Arity(t: string): nat
    requires WellFormedTemplate(t)
    decreases |t|
  {
    if |t| == 0 then 0
    else if t[0] == '%' then 1 + Arity(t[2..])
    else Arity(t[1..])
  }

  predicate NoPercent(s: string) { forall i :: 0 <= i < |s| ==> s[i] != '%' }

  /** String.format(t, args) for templates whose only conversions are `%s`;
      surplus arguments are ignored, as Java ignores them. */
  function Format(t: string, args: seq<string>): string
    requires WellFormedTemplate(t) && Arity(t) <= |args|
    decreases |t|
  {
    if |t| == 0 then ""
    else if t[0] == '%' then args[0] + Format(t[2..], args[1..])
    else [t[0]] + Format(t[1..], args)
  }

  /** Literal text in front of a template leaves it well formed or not. */
  lemma {:induction false} LiteralWellFormed(lit: string, rest: string)
    requires NoPercent(lit)
    ensures WellFormedTemplate(lit + rest) == WellFormedTemplate(rest)
    decreases |lit|
  {
    if |lit| > 0 {
      assert (lit + rest)[0] == lit[0];
      assert (lit + rest)[1..] == lit[1..] + rest;
      LiteralWellFormed(lit[1..], rest);
    } else {
      assert lit + rest == rest;
    }
  }

  /** Literal text in front of a template adds no conversion. */
  lemma {:induction false} LiteralArity(lit: string, rest: string)
    requires NoPercent(lit) && WellFormedTemplate(rest)
    ensures WellFormedTemplate(lit + rest) && Arity(lit + rest) == Arity(rest)
    decreases |lit|
  {
    LiteralWellFormed(lit, rest);
    if |lit| > 0 {
      assert (lit + rest)[0] == lit[0];
      assert (lit + rest)[1..] == lit[1..] + rest;
      LiteralArity(lit[1..], rest);
    } else {
      assert lit + rest == rest;
    }
  }

  /** Literal text before the first conversion is copied unchanged. */
  lemma {:induction false} FormatLiteral(lit: string, rest: string, args: seq<string>)
    requires NoPercent(lit) && WellFormedTemplate(rest) && Arity(rest) <= |args|
    ensures WellFormedTemplate(lit + rest) && Arity(lit + rest) == Arity(rest)
    ensures Format(lit + rest, args) == lit + Format(rest, args)
    decreases |lit|
  {
    LiteralArity(lit, rest);
    if |lit| > 0 {
      var t := lit + rest;
      assert t[0] == lit[0] && t[0] != '%';
      assert t[1..] == lit[1..] + rest;
      assert NoPercent(lit[1..]);
      FormatLiteral(lit[1..], rest, args);
      calc {
        Format(t, args);
        [t[0]] + Format(t[1..], args);
        [lit[0]] + (lit[1..] + Format(rest, args));
        { assert lit == [lit[0]] + lit[1..]; }
        lit + Format(rest, args);
      }
    } else {
      assert lit + rest == rest;
    }
  }

  /** A `%s` at the front takes the next argument. */
  lemma FormatConversion(rest: string, a: string, args: seq<string>)
    ensures WellFormedTemplate("%s" + rest) == WellFormedTemplate(rest)
    ensures WellFormedTemplate(rest) ==> Arity("%s" + rest) == 1 + Arity(rest)
    ensures WellFormedTemplate(rest) && Arity(rest) <= |args| ==>
              Format("%s" + rest, [a] + args) == a + Format(rest, args)
  {
    assert ("%s" + rest)[2..] == rest;
    assert ([a] + args)[1..] == args;
  }

  /** A template without conversions formats to itself. */
  lemma FormatPlain(lit: string, args: seq<string>)
    requires NoPercent(lit)
    ensures WellFormedTemplate(lit) && Arity(lit) == 0 && Format(lit, args) == lit
  {
    assert lit + [] == lit;
    FormatLiteral(lit, [], args);
  }

  /** The template `lits[0] %s lits[1] %s ... lits[n]`, written as its
      literal pieces. */
  function Template(lits: seq<string>): string
    requires |lits| > 0
    decreases |lits|
  {
    if |lits| == 1 then lits[0] else lits[0] + "%s" + Template(lits[1..])
  }

  /** The pieces with the arguments put between them. */
  function Filled(lits: seq<string>, args: seq<string>): string
    requires |lits| > 0 && |args| == |lits| - 1
    decreases |lits|
  {
    if |lits| == 1 then lits[0] else lits[0] + args[0] + Filled(lits[1..], args[1..])
  }

  /** The one-conversion case. */
  lemma FilledOne(lits: seq<string>, a: string)
    requires |lits| == 2
    ensures Filled(lits, [a]) == lits[0] + a + lits[1]
  {
    assert [a][1..] == [];
    assert Filled(lits[1..], []) == lits[1];
  }

  /** The two-conversion case, grouped from the right. */
  lemma FilledTwoNested(lits: seq<string>, a: string, b: string)
    requires |lits| == 3
    ensures Filled(lits, [a, b]) == lits[0] + a + (lits[1] + b + lits[2])
  {
    assert [a, b][1..] == [b];
    assert [b][1..] == [];
    assert Filled(lits[1..], [b]) == lits[1] + b + Filled(lits[2..], []);
  }

  /** The three-conversion case, grouped from the right. */
  lemma FilledThreeNested(lits: seq<string>, a: string, b: string, c: string)
    requires |lits| == 4
    ensures Filled(lits, [a, b, c]) == lits[0] + a + (lits[1] + b + (lits[2] + c + lits[3]))
  {
    assert [a, b, c][1..] == [b, c];
    FilledTwoNested(lits[1..], b, c);
  }

  /** The four-conversion case, grouped from the right. */
  lemma FilledFourNested(lits: seq<string>, a: string, b: string, c: string, d: string)
    requires |lits| == 5
    ensures Filled(lits, [a, b, c, d]) == lits[0] + a + (lits[1] + b + (lits[2] + c + (lits[3] + d + lits[4])))
  {
    assert [a, b, c, d][1..] == [b, c, d];
    FilledThreeNested(lits[1..], b, c, d);
  }

  /** Right-grouped and left-grouped concatenations of five pieces agree. */
  lemma Flatten5(p0: string, p1: string, p2: string, p3: string, p4: string)
    ensures p0 + p1 + (p2 + p3 + p4) == p0 + p1 + p2 + p3 + p4
  {
  }

  /** Right-grouped and left-grouped concatenations of seven pieces agree. */
  lemma Flatten7(p0: string, p1: string, p2: string, p3: string, p4: string, p5: string, p6: string)
    ensures p0 + p1 + (p2 + p3 + (p4 + p5 + p6)) == p0 + p1 + p2 + p3 + p4 + p5 + p6
  {
  }

  /** Right-grouped and left-grouped concatenations of nine pieces agree. */
  lemma Flatten9(p0: string, p1: string, p2: string, p3: string, p4: string, p5: string, p6: string,
                 p7: string, p8: string)
    ensures p0 + p1 + (p2 + p3 + (p4 + p5 + (p6 + p7 + p8))) == p0 + p1 + p2 + p3 + p4 + p5 + p6 + p7 + p8
  {
  }

  /** The two-conversion case. */
  lemma FilledTwo(lits: seq<string>, a: string, b: string)
    requires |lits| == 3
    ensures Filled(lits, [a, b]) == lits[0] + a + lits[1] + b + lits[2]
  {
    FilledTwoNested(lits, a, b);
    Flatten5(lits[0], a, lits[1], b, lits[2]);
  }

  /** The three-conversion case. */
  lemma FilledThree(lits: seq<string>, a: string, b: string, c: string)
    requires |lits| == 4
    ensures Filled(lits, [a, b, c]) == lits[0] + a + lits[1] + b + lits[2] + c + lits[3]
  {
    FilledThreeNested(lits, a, b, c);
    Flatten7(lits[0], a, lits[1], b, lits[2], c, lits[3]);
  }

  /** The four-conversion case. */
  lemma FilledFour(lits: seq<string>, a: string, b: string, c: string, d: string)
    requires |lits| == 5
    ensures Filled(lits, [a, b, c, d]) == lits[0] + a + lits[1] + b + lits[2] + c + lits[3] + d + lits[4]
  {
    FilledFourNested(lits, a, b, c, d);
    Flatten9(lits[0], a, lits[1], b, lits[2], c, lits[3], d, lits[4]);
  }

  /** String.format puts each argument in place of its `%s`, in order. */
  lemma {:induction false} FormatTemplate(lits: seq<string>, args: seq<string>)
    requires |lits| > 0 && |args| == |lits| - 1
    requires forall i :: 0 <= i < |lits| ==> NoPercent(lits[i])
    ensures WellFormedTemplate(Template(lits)) && Arity(Template(lits)) == |args|
    ensures Format(Template(lits), args) == Filled(lits, args)
    decreases |lits|
  {
    if |lits| == 1 {
      FormatPlain(lits[0], args);
    } else {
      var rest := Template(lits[1..]);
      assert Template(lits) == lits[0] + ("%s" + rest);
      assert forall i :: 0 <= i < |lits[1..]| ==> NoPercent(lits[1..][i]) by {
        forall i | 0 <= i < |lits[1..]| ensures NoPercent(lits[1..][i]) { assert lits[1..][i] == lits[i + 1]; }
      }
      FormatTemplate(lits[1..], args[1..]);
      assert WellFormedTemplate(rest) && Arity(rest) == |args[1..]|;
      FormatConversion(rest, args[0], args[1..]);
      assert [args[0]] + args[1..] == args;
      assert NoPercent(lits[0]);
      FormatLiteral(lits[0], "%s" + rest, args);
    }
  }

  // --------------------------------------------------- decimal rendering

  function DigitChar(d: int): (c: char)
    requires 0 <= d < 10
    ensures '0' <= c <= '9'
  {
    (48 + d) as char
  }

  /** The decimal digits of a natural number, most significant first. */
  function NatToString(n: nat): (r: string)
    ensures |r| > 0 && forall i :: 0 <= i < |r| ==> '0' <= r[i] <= '9'
    decreases n
  {
    if n < 10 then [DigitChar(n)] else NatToString(n / 10) + [DigitChar(n % 10)]
  }

  /** `%d` / Long.toString: a minus sign before the digits of a negative value. */
  function IntToString(n: int): string
  {
    if n < 0 then "-" + NatToString(-n) else NatToString(n)
  }

  /** The value a string of decimal digits denotes. */
  function DecimalValue(s: string): int
    decreases |s|
  {
    if |s| == 0 then 0 else 10 * DecimalValue(s[..|s| - 1]) + (s[|s| - 1] as int - 48)
  }

  /** Reading the rendered digits back gives the number. */
  lemma {:induction false} NatToStringRoundTrip(n: nat)
    ensures DecimalValue(NatToString(n)) == n
    decreases n
  {
    if n >= 10 {
      NatToStringRoundTrip(n / 10);
      var s := NatToString(n);
      assert s[..|s| - 1] == NatToString(n / 10);
    }
  }

  /** Rendering is injective: distinct numbers print differently. */
  lemma IntToStringInjective(m: int, n: int)
    requires IntToString(m) == IntToString(n)
    ensures m == n
  {
    NatToStringRoundTrip(if m < 0 then -m else m);
    NatToStringRoundTrip(if n < 0 then -n else n);
    assert IntToString(m)[0] == '-' <==> m < 0;
    assert IntToString(n)[0] == '-' <==> n < 0;
    if m < 0 {
      assert NatToString(-m) == IntToString(m)[1..];
      assert NatToString(-n) == IntToString(n)[1..];
    }
  }
}
