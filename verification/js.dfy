/**
 The parts of JavaScript's value semantics that the two views rely on:
 `null`, the string form `String(v)` that `+` and `AddText` produce,
 truthiness as used by `?:`, `String.prototype.substr`,
 `String.prototype.replace` with a one-character string pattern, and the
 decimal form of an array length.
 */
module Js {

  /** A value that may be JavaScript `null`. */
  datatype Option<+T> = None | Some(value: T)

  /** A scalar JavaScript value as it arrives in a server payload.
      A number is carried by its string form `String(x)`: how a
      floating-point number is printed is not part of this model. */
  datatype Value = Null | Undefined | Bool(b: bool) | Num(repr: string) | Str(s: string)

  /** `String(v)`; also what `"..." + v` appends. */
  function ToString(v: Value): string {
    match v
    case Null => "null"
    case Undefined => "undefined"
    case Bool(b) => if b then "true" else "false"
    case Num(repr) => repr
    case Str(s) => s
  }

  /** Truthiness: `null`, `undefined`, `false`, `0`, `NaN` and `""` are falsy.
      `String(-0)` is `"0"`, so negative zero is covered by the `"0"` case. */
  predicate Truthy(v: Value) {
    match v
    case Null => false
    case Undefined => false
    case Bool(b) => b
    case Num(repr) => repr != "0" && repr != "NaN"
    case Str(s) => s != ""
  }

  function Min(a: int, b: int): int { if a <= b then a else b }
  function Max(a: int, b: int): int { if a >= b then a else b }

  /** `s.substr(start, length)` as ECMAScript Annex B defines it (`length`
      is `None` when the argument is omitted): a negative start counts from
      the end and is clamped at 0, the length is clamped to `[0, |s|]`. */
  function Substr(s: string, start: int, length: Option<int>): (r: string)
    ensures |r| <= |s|
  {
    var from := if start < 0 then Max(|s| + start, 0) else Min(start, |s|);
    var len := match length
      case None => |s|
      case Some(n) => Min(Max(n, 0), |s|);
    s[from..Min(from + len, |s|)]
  }

  /** `s.substr(-k)` is the last `k` characters, or all of `s` when it is shorter. */
  lemma SubstrFromEnd(s: string, k: int)
    requires k > 0
    ensures Substr(s, -k, None) == if k <= |s| then s[|s| - k..] else s
  {
  }

  /** `s.substr(0, n)` is the first `n` characters when `0 <= n <= |s|`. */
  lemma SubstrPrefix(s: string, n: int)
    requires 0 <= n <= |s|
    ensures Substr(s, 0, Some(n)) == s[..n]
  {
  }

  predicate EndsWith<T(==)>(s: seq<T>, suffix: seq<T>) {
    |suffix| <= |s| && s[|s| - |suffix|..] == suffix
  }

  // ---------------------------------------------------------------------
  // UTF-16
  // ---------------------------------------------------------------------

  /** A JavaScript string is a sequence of UTF-16 code units: `length`
      and indexing count code units, so a character outside the Basic
      Multilingual Plane (an emoji, say) counts twice. */
  type CodeUnit = u: int | 0 <= u < 0x1_0000

  type JsString = seq<CodeUnit>

  const Dot: CodeUnit := '.' as int
  const Comma: CodeUnit := ',' as int
  const Space: CodeUnit := ' ' as int
  const Colon: CodeUnit := ':' as int

  predicate IsSurrogate(u: int) {
    0xD800 <= u < 0xE000
  }

  /** The code units of one character: itself below U+10000, otherwise a
      high and a low surrogate. */
  function Utf16Char(c: char): (u: JsString)
    ensures |u| == if c as int < 0x1_0000 then 1 else 2
    ensures c as int < 0x1_0000 ==> u == [c as int] && !IsSurrogate(u[0])
    ensures c as int >= 0x1_0000 ==> 0xD800 <= u[0] < 0xDC00 && 0xDC00 <= u[1] < 0xE000
  {
    if c as int < 0x1_0000 then [c as int]
    else
      var v := c as int - 0x1_0000;
      [0xD800 + v / 0x400, 0xDC00 + v % 0x400]
  }

  /** The JavaScript string holding the text `s`. */
  function Utf16(s: string): (u: JsString)
    ensures |u| >= |s|
    ensures (forall i :: 0 <= i < |s| ==> s[i] as int < 0x1_0000) ==> |u| == |s|
  {
    if s == [] then [] else Utf16(s[..|s| - 1]) + Utf16Char(s[|s| - 1])
  }

  lemma {:induction false} Utf16Concat(a: string, b: string)
    ensures Utf16(a + b) == Utf16(a) + Utf16(b)
    decreases |b|
  {
    if b == [] {
      assert a + b == a;
    } else {
      var b', z := b[..|b| - 1], Utf16Char(b[|b| - 1]);
      assert (a + b)[..|a + b| - 1] == a + b';
      assert Utf16(a + b) == Utf16(a + b') + z;
      Utf16Concat(a, b');
      assert Utf16(b) == Utf16(b') + z;
    }
  }

  lemma Utf16Snoc(p: string, d: char)
    ensures Utf16(p + [d]) == Utf16(p) + Utf16Char(d)
  {
    assert (p + [d])[..|p|] == p;
  }

  /** The code units of a text below U+10000 are its characters' codes. */
  lemma {:induction false} AsciiUtf16(s: string)
    requires forall i :: 0 <= i < |s| ==> s[i] as int < 0x1_0000
    ensures |Utf16(s)| == |s|
    ensures forall i :: 0 <= i < |s| ==> Utf16(s)[i] == s[i] as int
  {
    if s != [] {
      var p := s[..|s| - 1];
      AsciiUtf16(p);
      assert s == p + [s[|s| - 1]];
      Utf16Snoc(p, s[|s| - 1]);
    }
  }

  lemma Utf16Two(a: char, b: char)
    requires a as int < 0x1_0000 && b as int < 0x1_0000
    ensures Utf16([a, b]) == [a as int, b as int]
  {
    assert [a, b][..1] == [a];
    assert [a][..0] == [];
  }

  lemma Utf16Three(a: char, b: char, c: char)
    requires a as int < 0x1_0000 && b as int < 0x1_0000 && c as int < 0x1_0000
    ensures Utf16([a, b, c]) == [a as int, b as int, c as int]
  {
    assert [a, b, c][..2] == [a, b];
    Utf16Two(a, b);
  }

  /** A suffix made of characters below U+10000 ends a text exactly when
      its code units end the text's code units: UTF-16 cannot fake such a
      suffix with the halves of a surrogate pair. */
  lemma EndsWithUtf16(s: string, t: string)
    requires forall i :: 0 <= i < |t| ==> t[i] as int < 0x1_0000
    ensures EndsWith(s, t) <==> EndsWith(Utf16(s), Utf16(t))
  {
    if EndsWith(s, t) {
      Utf16SuffixForth(s, t);
    }
    if EndsWith(Utf16(s), Utf16(t)) {
      var us, ut := Utf16(s), Utf16(t);
      Utf16SuffixBack(s, t, us[..|us| - |ut|]);
    }
  }

  lemma Utf16SuffixForth(s: string, t: string)
    requires EndsWith(s, t)
    ensures EndsWith(Utf16(s), Utf16(t))
  {
    var p := s[..|s| - |t|];
    assert s == p + t;
    Utf16Concat(p, t);
  }

  /** Going back over the suffix one character at a time: when the code
      units of `s` are `w` followed by those of `t`, `s` ends with `t`. */
  lemma {:induction false} Utf16SuffixBack(s: string, t: string, w: JsString)
    requires forall i :: 0 <= i < |t| ==> t[i] as int < 0x1_0000
    requires Utf16(s) == w + Utf16(t)
    ensures EndsWith(s, t)
    decreases |t|
  {
    if t != [] {
      var t', c := t[..|t| - 1], t[|t| - 1];
      assert Utf16(t) == Utf16(t') + [c as int];
      assert s != [] by {
        assert |Utf16(s)| >= 1;
      }
      var p, d := s[..|s| - 1], s[|s| - 1];
      assert Utf16(p) + Utf16Char(d) == (w + Utf16(t')) + [c as int];
      SnocCancel(Utf16(p), d, w + Utf16(t'), c);
      assert forall i :: 0 <= i < |t'| ==> t'[i] as int < 0x1_0000 by {
        forall i | 0 <= i < |t'| ensures t'[i] as int < 0x1_0000 {
          assert t'[i] == t[i];
        }
      }
      Utf16SuffixBack(p, t', w);
      LastSplit(s);
      LastSplit(t);
      SnocEndsWith(p, t', d, s, t);
    }
  }

  lemma SnocEndsWith<T>(p: seq<T>, q: seq<T>, d: T, s: seq<T>, t: seq<T>)
    requires EndsWith(p, q)
    requires s == p + [d] && t == q + [d]
    ensures EndsWith(s, t)
  {
    assert s[|s| - |t|..] == p[|p| - |q|..] + [d];
  }

  lemma LastSplit<T>(s: seq<T>)
    requires s != []
    ensures s == s[..|s| - 1] + [s[|s| - 1]]
  {
  }

  /** When `up` followed by the code units of `d` is `x` followed by the
      character `c` below U+10000, then `d` is `c` and `up` is `x`. */
  lemma SnocCancel(up: JsString, d: char, x: JsString, c: char)
    requires c as int < 0x1_0000
    requires up + Utf16Char(d) == x + [c as int]
    ensures d == c && up == x
  {
    var ud := Utf16Char(d);
    var u := up + ud;
    assert u[|u| - 1] == c as int;
    assert ud[|ud| - 1] == c as int;
    LastUnitIsChar(d, c);
    assert up == u[..|u| - 1] == x;
  }

  /** A character is never a surrogate, so a last code unit that is a
      character below U+10000 is the whole of the encoded character. */
  lemma LastUnitIsChar(d: char, c: char)
    requires c as int < 0x1_0000
    requires var ud := Utf16Char(d); ud[|ud| - 1] == c as int
    ensures d == c && Utf16Char(d) == [c as int]
  {
  }

  // ---------------------------------------------------------------------
  // replace, String(n)
  // ---------------------------------------------------------------------

  /** Index `i` holds the first occurrence of `c` in `s`. */
  predicate IsFirst<T(==)>(s: seq<T>, i: int, c: T)
    requires 0 <= i < |s|
  {
    s[i] == c && c !in s[..i]
  }

  /** `s.replace(from, to)` with one-character string arguments: only the
      first occurrence is replaced (a string pattern is not a global regex). */
  function ReplaceFirst<T(==)>(s: seq<T>, from: T, to: T): (r: seq<T>)
    ensures |r| == |s|
    ensures forall i :: 0 <= i < |s| ==> r[i] == if IsFirst(s, i, from) then to else s[i]
  {
    if s == [] then []
    else if s[0] == from then
      assert forall i :: 0 < i < |s| ==> !IsFirst(s, i, from) by {
        forall i | 0 < i < |s| ensures !IsFirst(s, i, from) {
          assert s[..i][0] == from;
        }
      }
      [to] + s[1..]
    else
      var rest := ReplaceFirst(s[1..], from, to);
      assert forall i :: 0 < i < |s| ==> (IsFirst(s, i, from) <==> IsFirst(s[1..], i - 1, from)) by {
        forall i | 0 < i < |s| ensures IsFirst(s, i, from) <==> IsFirst(s[1..], i - 1, from) {
          assert s[..i] == [s[0]] + s[1..][..i - 1];
        }
      }
      [s[0]] + rest
  }

  /** A string without `from` comes back unchanged. */
  lemma ReplaceFirstAbsent<T>(s: seq<T>, from: T, to: T)
    requires from !in s
    ensures ReplaceFirst(s, from, to) == s
  {
    var r := ReplaceFirst(s, from, to);
    forall i | 0 <= i < |s| ensures r[i] == s[i] {
      assert !IsFirst(s, i, from);
    }
  }

  predicate IsDigits(s: JsString) {
    forall i :: 0 <= i < |s| ==> '0' as int <= s[i] <= '9' as int
  }

  function DigitUnit(d: nat): (u: CodeUnit)
    requires d < 10
  {
    '0' as int + d
  }

  /** The decimal form `String(n)` of a non-negative integer, as JavaScript
      prints an array length: digits only, no leading zero. */
  function NatToString(n: nat): (r: JsString)
    ensures |r| >= 1 && IsDigits(r)
    ensures r[0] == '0' as int ==> n == 0
    decreases n
  {
    if n < 10 then [DigitUnit(n)] else NatToString(n / 10) + [DigitUnit(n % 10)]
  }

  /** The number a string of decimal digits denotes. */
  function DecimalValue(s: JsString): nat
    requires IsDigits(s)
  {
    if s == [] then 0
    else 10 * DecimalValue(s[..|s| - 1]) + (s[|s| - 1] - '0' as int)
  }

  /** The decimal form reads back as the number it was printed from. */
  lemma {:induction false} DecimalRoundTrip(n: nat)
    ensures DecimalValue(NatToString(n)) == n
    decreases n
  {
    if n >= 10 {
      DecimalRoundTrip(n / 10);
      var s := NatToString(n / 10);
      assert NatToString(n) == s + [DigitUnit(n % 10)];
      assert (s + [DigitUnit(n % 10)])[..|s|] == s;
    }
  }
}
