/**
 * The parts of Python's built-in types that the lexicon code relies on:
 * None, exceptions, truthiness, f-string formatting of optional values,
 * and the string methods `lower`, `replace`, `split`, `join`, `in`,
 * together with `str(n)` and `int(s)`.
 */
module Builtins {

  /** A value that may be Python's None. */
  datatype Option<+T> = None | Some(value: T)

  /** The outcome of a step that may raise; `:-` propagates the exception. */
  datatype Result<+T, +E> = Ok(value: T) | Err(error: E) {
    predicate IsFailure()
    {
      Err?
    }

    function PropagateFailure<U>(): Result<U, E>
      requires Err?
    {
      Err(error)
    }

    function Extract(): T
      requires Ok?
    {
      value
    }
  }

  /** The exceptions the core can raise; each one aborts the whole run. */
  datatype Fault =
    | TypeError       // subscripting None, int(None)
    | IndexError      // ''[0]
    | AttributeError  // a method call or attribute read on None
    | ValueError      // an unmapped part of speech, int() of a non-number
    | AssertionError  // a failing `assert`
    | MappingError    // `raise Exception(...)` for an unmapped morpho-type

  /** f'{x}' for an optional string: None is rendered as "None". */
  function Format(x: Option<string>): string
  {
    match x
    case None => "None"
    case Some(s) => s
  }

  /** Python truthiness of an optional string: None and '' are false. */
  predicate Truthy(x: Option<string>)
  {
    x.Some? && x.value != ""
  }

  /** str.lower() on one character (ASCII letters only). */
  function LowerChar(c: char): char
  {
    if 'A' <= c <= 'Z' then (c as int + 32) as char else c
  }

  /** str.lower() (ASCII letters only). */
  function Lower(s: string): string
  {
    if s == [] then [] else [LowerChar(s[0])] + Lower(s[1..])
  }

  /** s.replace(c, repl) for a one-character pattern. */
  function ReplaceChar(s: string, c: char, repl: string): string
  {
    if s == [] then []
    else (if s[0] == c then repl else [s[0]]) + ReplaceChar(s[1..], c, repl)
  }

  /** ''.join(parts) */
  function Concat(parts: seq<string>): string
  {
    if parts == [] then "" else parts[0] + Concat(parts[1..])
  }

  /** sep.join(parts) */
  function Join(parts: seq<string>, sep: string): string
  {
    if parts == [] then ""
    else if |parts| == 1 then parts[0]
    else parts[0] + sep + Join(parts[1..], sep)
  }

  /** s.split(sep) for a one-character separator. */
  function Split(s: string, sep: char): (r: seq<string>)
    ensures |r| >= 1
  {
    if s == [] then [""]
    else
      var rest := Split(s[1..], sep);
      if s[0] == sep then [""] + rest
      else [[s[0]] + rest[0]] + rest[1..]
  }

  /** pat occurs in s at position i. */
  predicate OccursAt(s: string, pat: string, i: int)
  {
    0 <= i && i + |pat| <= |s| && s[i..i + |pat|] == pat
  }

  /** Python's `pat in s` on strings. */
  function ContainsSubstring(s: string, pat: string): (r: bool)
    ensures r <==> exists i :: OccursAt(s, pat, i)
    decreases |s|
  {
    if |s| < |pat| then false
    else if s[..|pat|] == pat then (assert OccursAt(s, pat, 0); true)
    else
      var r := ContainsSubstring(s[1..], pat);
      assert r ==> exists i :: OccursAt(s, pat, i) by {
        if r {
          var j :| OccursAt(s[1..], pat, j);
          assert s[j + 1..j + 1 + |pat|] == s[1..][j..j + |pat|];
          assert OccursAt(s, pat, j + 1);
        }
      }
      assert (exists i :: OccursAt(s, pat, i)) ==> r by {
        if exists i :: OccursAt(s, pat, i) {
          var i :| OccursAt(s, pat, i);
          assert i != 0;
          assert s[1..][i - 1..i - 1 + |pat|] == s[i..i + |pat|];
          assert OccursAt(s[1..], pat, i - 1);
        }
      }
      r
  }

  /** The decimal digit for d. */
  function DigitChar(d: nat): char
    requires d < 10
  {
    ('0' as int + d) as char
  }

  predicate IsDigit(c: char)
  {
    '0' <= c <= '9'
  }

  predicate AllDigits(s: string)
  {
    forall i :: 0 <= i < |s| ==> IsDigit(s[i])
  }

  /** str(n) for a natural number n. */
  function NatToString(n: nat): string
    decreases n
  {
    if n < 10 then [DigitChar(n)] else NatToString(n / 10) + [DigitChar(n % 10)]
  }

  /** The value of a string of decimal digits. */
  function DigitsValue(s: string): nat
    requires AllDigits(s)
  {
    if s == [] then 0 else DigitsValue(s[..|s| - 1]) * 10 + (s[|s| - 1] as int - '0' as int)
  }

  /**
   * int(x): None raises TypeError; otherwise an optional sign followed by
   * at least one decimal digit, and anything else raises ValueError.
   */
  /** An integer literal: an optional sign followed by one or more decimal digits. */
  predicate IsIntLiteral(s: string)
  {
    |s| > 0 &&
    if s[0] == '-' || s[0] == '+' then |s| > 1 && AllDigits(s[1..]) else AllDigits(s)
  }

  function ParseInt(x: Option<string>): (r: Result<int, Fault>)
    ensures r.Ok? <==> x.Some? && IsIntLiteral(x.value)
    ensures r.Err? ==> r.error == (if x.None? then TypeError else ValueError)
    ensures x.Some? && x.value != [] && AllDigits(x.value) ==> r == Ok(DigitsValue(x.value))
    ensures x.Some? && IsIntLiteral(x.value) && x.value[0] == '-' ==> r.Ok? && r.value == -(DigitsValue(x.value[1..]) as int)
    ensures x.Some? && IsIntLiteral(x.value) && x.value[0] == '+' ==> r == Ok(DigitsValue(x.value[1..]))
  {
    match x
    case None => Err(TypeError)
    case Some(s) =>
      var signed := |s| > 0 && (s[0] == '-' || s[0] == '+');
      var digits := if signed then s[1..] else s;
      if digits != [] && AllDigits(digits) then
        var v: int := DigitsValue(digits);
        Ok(if signed && s[0] == '-' then -v else v)
      else Err(ValueError)
  }

  /** set(s) */
  function Elements<T>(s: seq<T>): set<T>
  {
    set x | x in s
  }

  /** No element of s occurs twice. */
  ghost predicate Distinct<T>(s: seq<T>)
  {
    forall i, j :: 0 <= i < j < |s| ==> s[i] != s[j]
  }

  /** len(set(s)) <= len(s), with equality exactly when s has no repeated element. */
  lemma {:induction false} ElementsCardinality<T>(s: seq<T>)
    ensures |Elements(s)| <= |s|
    ensures |Elements(s)| == |s| <==> Distinct(s)
  {
    if s != [] {
      var init, x := s[..|s| - 1], s[|s| - 1];
      ElementsCardinality(init);
      assert s == init + [x];
      assert Elements(s) == Elements(init) + {x};
      if x in init {
        var k :| 0 <= k < |init| && init[k] == x;
        assert s[k] == s[|s| - 1];
        assert Elements(s) == Elements(init);
      } else {
        assert Distinct(s) <==> Distinct(init) by {
          if Distinct(init) {
            forall i, j | 0 <= i < j < |s|
              ensures s[i] != s[j]
            {
              if j < |s| - 1 {
                assert s[i] == init[i] && s[j] == init[j];
              } else {
                assert s[i] in init;
              }
            }
          }
        }
      }
    }
  }

  lemma {:induction false} ConcatAppend(parts: seq<string>, x: string)
    ensures Concat(parts + [x]) == Concat(parts) + x
  {
    if parts != [] {
      assert (parts + [x])[1..] == parts[1..] + [x];
      ConcatAppend(parts[1..], x);
    }
  }

  /** Every piece of s.split(sep) is free of sep and made of characters of s. */
  lemma {:induction false} SplitPieces(s: string, sep: char)
    ensures forall p, c :: p in Split(s, sep) && c in p ==> c != sep && c in s
  {
    if s != [] {
      SplitPieces(s[1..], sep);
    }
  }

  /** Joining the pieces of s.split(sep) with sep gives s back. */
  lemma {:induction false} SplitJoin(s: string, sep: char)
    ensures Join(Split(s, sep), [sep]) == s
  {
    if s != [] {
      var rest := Split(s[1..], sep);
      SplitJoin(s[1..], sep);
      if s[0] == sep {
        assert ([""] + rest)[1..] == rest;
      } else {
        var r := [[s[0]] + rest[0]] + rest[1..];
        if |rest| == 1 {
          assert r == [[s[0]] + rest[0]];
        } else {
          assert r[1..] == rest[1..];
          assert Join(rest, [sep]) == rest[0] + [sep] + Join(rest[1..], [sep]);
        }
      }
    }
  }

  /** A string without the separator splits into itself alone. */
  lemma {:induction false} SplitFree(s: string, sep: char)
    requires sep !in s
    ensures Split(s, sep) == [s]
  {
    if s != [] {
      SplitFree(s[1..], sep);
      assert [s[0]] + s[1..] == s;
    }
  }

  /** A separator-free word followed by the separator splits off as one piece. */
  lemma {:induction false} SplitWord(w: string, rest: string, sep: char)
    requires sep !in w
    ensures Split(w + [sep] + rest, sep) == [w] + Split(rest, sep)
  {
    if w == [] {
      assert w + [sep] + rest == [sep] + rest;
      assert ([sep] + rest)[1..] == rest;
    } else {
      assert (w + [sep] + rest)[1..] == w[1..] + [sep] + rest;
      SplitWord(w[1..], rest, sep);
      assert [w[0]] + w[1..] == w;
    }
  }

  lemma {:induction false} NatToStringDigits(n: nat)
    ensures NatToString(n) != [] && AllDigits(NatToString(n))
    ensures DigitsValue(NatToString(n)) == n
    decreases n
  {
    if n >= 10 {
      NatToStringDigits(n / 10);
      var s := NatToString(n);
      assert s[..|s| - 1] == NatToString(n / 10);
    }
  }

  /** int(str(n)) == n */
  lemma ParseIntRoundTrip(n: nat)
    ensures ParseInt(Some(NatToString(n))) == Ok(n)
  {
    NatToStringDigits(n);
    var s := NatToString(n);
    assert IsDigit(s[0]);
  }
}
