/** The JavaScript coercions the validators rely on: truthiness, strict
    equality, string conversion (`${val}`) and `String.prototype.trim`. */
module Coercions {
  import opened Types

  /** `!!v` */
  predicate Truthy(v: Value)
  {
    match v
    case Null => false
    case Undefined => false
    case Bool(b) => b
    case Num(n) => n != 0
    case Str(s) => s != ""
    case Obj(_, _) => true
  }

  /** `a === b`: objects by reference, everything else by value. */
  predicate StrictEquals(a: Value, b: Value)
  {
    if a.Obj? && b.Obj? then a.ref == b.ref else a == b
  }

  /** The decimal digits of `n`. */
  function NatToString(n: nat): (r: string)
    ensures |r| >= 1
    decreases n
  {
    if n < 10 then ["0123456789"[n]] else NatToString(n / 10) + ["0123456789"[n % 10]]
  }

  /** `${v}` */
  function Stringify(v: Value): string
  {
    match v
    case Null => "null"
    case Undefined => "undefined"
    case Bool(b) => if b then "true" else "false"
    case Num(n) => if n < 0 then "-" + NatToString(-n) else NatToString(n)
    case Str(s) => s
    case Obj(_, text) => text
  }

  /** `s.length`: the number of UTF-16 code units, two for a character
      outside the Basic Multilingual Plane. */
  function Utf16Length(s: string): (n: nat)
    ensures |s| <= n <= 2 * |s|
    ensures (forall i :: 0 <= i < |s| ==> (s[i] as int) < 0x10000) ==> n == |s|
  {
    if s == [] then 0
    else Utf16Length(s[1..]) + (if (s[0] as int) < 0x10000 then 1 else 2)
  }

  /** One character is one code unit, or two outside the Basic Multilingual
      Plane. */
  lemma Utf16One(c: char)
    ensures Utf16Length([c]) == if (c as int) < 0x10000 then 1 else 2
  {
    assert [c][1..] == [];
  }

  /** The code-unit length of a concatenation is the sum of the lengths. */
  lemma {:induction false} Utf16Append(a: string, b: string)
    ensures Utf16Length(a + b) == Utf16Length(a) + Utf16Length(b)
  {
    if a == [] {
      assert a + b == b;
    } else {
      assert (a + b)[0] == a[0];
      assert (a + b)[1..] == a[1..] + b;
      Utf16Append(a[1..], b);
    }
  }

  /** The white space and line terminators that `trim` removes. */
  predicate IsWhitespace(c: char)
  {
    var n := c as int;
    n == 0x09 || n == 0x0A || n == 0x0B || n == 0x0C || n == 0x0D || n == 0x20
    || n == 0xA0 || n == 0x1680 || (0x2000 <= n <= 0x200A) || n == 0x2028 || n == 0x2029
    || n == 0x202F || n == 0x205F || n == 0x3000 || n == 0xFEFF
  }

  /** Every character of `s` is white space. */
  predicate IsBlank(s: string)
  {
    forall i :: 0 <= i < |s| ==> IsWhitespace(s[i])
  }

  /** `s` without its leading white space. */
  function TrimStart(s: string): (r: string)
    ensures |r| <= |s| && r == s[|s| - |r|..]
    ensures IsBlank(s[..|s| - |r|])
    ensures r != [] ==> !IsWhitespace(r[0])
  {
    if s != [] && IsWhitespace(s[0]) then
      var r := TrimStart(s[1..]);
      assert s[..|s| - |r|] == [s[0]] + s[1..][..|s| - 1 - |r|];
      r
    else
      s
  }

  /** `s` without its trailing white space. */
  function TrimEnd(s: string): (r: string)
    ensures |r| <= |s| && r == s[..|r|]
    ensures IsBlank(s[|r|..])
    ensures r != [] ==> !IsWhitespace(r[|r| - 1])
  {
    if s != [] && IsWhitespace(s[|s| - 1]) then
      var r := TrimEnd(s[..|s| - 1]);
      assert s[|r|..] == s[..|s| - 1][|r|..] + [s[|s| - 1]];
      r
    else
      s
  }

  /** `s.trim()`: `s` with a blank prefix and a blank suffix cut off; empty
      exactly when `s` is all white space, otherwise it neither starts nor
      ends with white space. */
  function Trim(s: string): (r: string)
    ensures exists i, j :: 0 <= i <= j <= |s| && r == s[i..j] && IsBlank(s[..i]) && IsBlank(s[j..])
    ensures r == [] <==> IsBlank(s)
    ensures |r| <= |s|
    ensures r != [] ==> !IsWhitespace(r[0]) && !IsWhitespace(r[|r| - 1])
  {
    TrimFacts(s);
    TrimSlice(s);
    TrimEnd(TrimStart(s))
  }

  /** The trimmed string is a slice of `s` between a blank prefix and a
      blank suffix. */
  lemma TrimSlice(s: string)
    ensures var r := TrimEnd(TrimStart(s));
      exists i, j :: 0 <= i <= j <= |s| && r == s[i..j] && IsBlank(s[..i]) && IsBlank(s[j..])
  {
    var t := TrimStart(s);
    var r := TrimEnd(t);
    var i := |s| - |t|;
    SliceOfSuffix(s, t, r, i);
    assert IsBlank(s[..i]) && IsBlank(s[i + |r|..]);
  }

  /** A prefix of a suffix of `s` is a slice of `s`. */
  lemma SliceOfSuffix(s: string, t: string, r: string, i: nat)
    requires i <= |s| && t == s[i..] && |r| <= |t| && r == t[..|r|]
    ensures r == s[i..i + |r|] && s[i + |r|..] == t[|r|..]
  {
  }

  lemma TrimFacts(s: string)
    ensures var r := TrimEnd(TrimStart(s));
      (r == [] <==> IsBlank(s)) && (r != [] ==> !IsWhitespace(r[0]))
  {
    var t := TrimStart(s);
    var r := TrimEnd(t);
    if r == [] {
      assert s == s[..|s| - |t|] + t;
      assert t == t[|r|..];
      BlankConcat(s[..|s| - |t|], t);
    } else {
      assert r[0] == t[0];
      assert t[0] == s[|s| - |t|];
    }
  }

  lemma BlankConcat(a: string, b: string)
    requires IsBlank(a) && IsBlank(b)
    ensures IsBlank(a + b)
  {
    forall i | 0 <= i < |a + b| ensures IsWhitespace((a + b)[i]) {
      if i < |a| { assert (a + b)[i] == a[i]; } else { assert (a + b)[i] == b[i - |a|]; }
    }
  }
}
