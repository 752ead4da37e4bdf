/**
 * The JavaScript primitives the navigator's logic depends on, with their
 * JavaScript meaning written out: the truncating remainder operator `%`,
 * `toLowerCase`, `indexOf`/`includes`, `trim`, `startsWith('.')`, truthiness
 * of a possibly-null string, and number-to-decimal-string conversion.
 */
module Js {

  /** A value that may be `null`/`undefined` in the source. */
  datatype Option<T> = None | Some(value: T)

  /** JavaScript truthiness of a string that may be null: `null`, `undefined` and `''` are falsy. */
  predicate Truthy(s: Option<string>)
  {
    s.Some? && s.value != ""
  }

  /**
   * JavaScript's `a % n` for a positive divisor: the quotient is truncated
   * toward zero, so the remainder has the sign of the dividend (unlike
   * Dafny's Euclidean `%`).
   */
  function Rem(a: int, n: int): (r: int)
    requires n > 0
    ensures 0 <= a ==> r == a % n && 0 <= r < n
    ensures a < 0 ==> -n < r <= 0
    ensures -n < a < 0 ==> r == a
  {
    if a >= 0 then a % n else -((-a) % n)
  }

  /** `toLowerCase` on one UTF-16 code unit, restricted to the ASCII letters. */
  function LowerChar(c: char): char
  {
    if 'A' <= c <= 'Z' then (c as int + 32) as char else c
  }

  /** `s.toLowerCase()`: a length-preserving, character-by-character map. */
  function Lower(s: string): (r: string)
    ensures |r| == |s|
    ensures forall k {:trigger r[k]} :: 0 <= k < |s| ==> r[k] == LowerChar(s[k])
  {
    seq(|s|, k requires 0 <= k < |s| => LowerChar(s[k]))
  }

  lemma LowerAppend(a: string, b: string)
    ensures Lower(a + b) == Lower(a) + Lower(b)
  {
    assert forall k :: 0 <= k < |a + b| ==> Lower(a + b)[k] == (Lower(a) + Lower(b))[k];
  }

  /** Lower-casing twice is lower-casing once. */
  lemma LowerIdempotent(s: string)
    ensures Lower(Lower(s)) == Lower(s)
  {
    assert forall k :: 0 <= k < |s| ==> Lower(Lower(s))[k] == Lower(s)[k];
  }

  /** `name.startsWith('.')`: the entry is a dot-file or dot-folder. */
  predicate StartsWithDot(name: string)
  {
    |name| > 0 && name[0] == '.'
  }

  /** `q` occurs in `s` starting at position `k`. */
  predicate OccursAt(s: string, q: string, k: int)
  {
    0 <= k && k + |q| <= |s| && s[k..k + |q|] == q
  }

  /**
   * `s.indexOf(q, from)` for `from <= |s|`: -1, or a position at or after
   * `from` where `q` fits; `IndexOfFinds` says which one.
   */
  function IndexOf(s: string, q: string, from: nat): (r: int)
    requires from <= |s|
    ensures r == -1 || (from <= r && r + |q| <= |s|)
    decreases |s| - from
  {
    if from + |q| > |s| then -1
    else if s[from..from + |q|] == q then from
    else IndexOf(s, q, from + 1)
  }

  /** `indexOf` finds the first occurrence at or after `from`, and -1 means there is none. */
  lemma {:induction false} IndexOfFinds(s: string, q: string, from: nat)
    requires from <= |s|
    ensures IndexOf(s, q, from) != -1 ==> OccursAt(s, q, IndexOf(s, q, from))
    ensures IndexOf(s, q, from) == -1 ==> forall k :: from <= k ==> !OccursAt(s, q, k)
    ensures forall k :: from <= k < IndexOf(s, q, from) ==> !OccursAt(s, q, k)
    decreases |s| - from
  {
    if from + |q| <= |s| && s[from..from + |q|] != q {
      IndexOfFinds(s, q, from + 1);
    }
  }

  /** `s.includes(q)`. */
  predicate Includes(s: string, q: string)
  {
    IndexOf(s, q, 0) >= 0
  }

  lemma IncludesMeansOccurs(s: string, q: string)
    ensures Includes(s, q) <==> exists k :: OccursAt(s, q, k)
  {
    IndexOfFinds(s, q, 0);
    if Includes(s, q) {
      assert OccursAt(s, q, IndexOf(s, q, 0));
    }
  }

  /** The characters `String.prototype.trim` removes: WhiteSpace and LineTerminator of ECMA-262. */
  predicate IsSpace(c: char)
  {
    c == '\t' || c == '\n' || c == '\r' || c == ' ' || c == '\U{000B}' || c == '\U{000C}'
    || c == '\U{00A0}' || c == '\U{1680}' || ('\U{2000}' <= c <= '\U{200A}')
    || c == '\U{2028}' || c == '\U{2029}' || c == '\U{202F}' || c == '\U{205F}'
    || c == '\U{3000}' || c == '\U{FEFF}'
  }

  /** `trimStart`: drops the leading white space. */
  function TrimStart(s: string): string
  {
    if s != [] && IsSpace(s[0]) then TrimStart(s[1..]) else s
  }

  /** `trimEnd`: drops the trailing white space. */
  function TrimEnd(s: string): string
  {
    if s != [] && IsSpace(s[|s| - 1]) then TrimEnd(s[..|s| - 1]) else s
  }

  /** `s.trim()`. */
  function Trim(s: string): string
  {
    TrimEnd(TrimStart(s))
  }

  /** What `trimStart` keeps is a suffix of its input that does not start with white space. */
  lemma {:induction false} TrimStartShape(s: string)
    ensures |TrimStart(s)| <= |s| && TrimStart(s) == s[|s| - |TrimStart(s)|..]
    ensures TrimStart(s) == [] || !IsSpace(TrimStart(s)[0])
  {
    if s != [] && IsSpace(s[0]) {
      TrimStartShape(s[1..]);
    }
  }

  /** What `trimEnd` keeps is a prefix of its input that does not end with white space. */
  lemma {:induction false} TrimEndShape(s: string)
    ensures |TrimEnd(s)| <= |s| && TrimEnd(s) == s[..|TrimEnd(s)|]
    ensures TrimEnd(s) == [] || !IsSpace(TrimEnd(s)[|TrimEnd(s)| - 1])
  {
    if s != [] && IsSpace(s[|s| - 1]) {
      TrimEndShape(s[..|s| - 1]);
    }
  }

  /** `trim` keeps no more than its input, and what it keeps neither starts nor ends with white space. */
  lemma TrimShape(s: string)
    ensures var r := Trim(s);
      |r| <= |s| && (r == [] || (!IsSpace(r[0]) && !IsSpace(r[|r| - 1])))
  {
    var t := TrimStart(s);
    TrimStartShape(s);
    TrimEndShape(t);
    var r := TrimEnd(t);
    assert r != [] ==> r[0] == t[0];
  }

  function DigitChar(d: nat): (c: char)
    requires d < 10
    ensures '0' <= c <= '9'
  {
    "0123456789"[d]
  }

  /** `String(n)` for a non-negative integer: its decimal digits, without leading zeros. */
  function NatToString(n: nat): (r: string)
    ensures 1 <= |r|
    ensures forall k :: 0 <= k < |r| ==> '0' <= r[k] <= '9'
    ensures |r| > 1 ==> r[0] != '0'
    decreases n
  {
    if n < 10 then [DigitChar(n)] else NatToString(n / 10) + [DigitChar(n % 10)]
  }
}
