/**
 * The Java string operations the wire protocol relies on:
 * `String.split(":")`, string concatenation of `int`/`long` values
 * (`Integer.toString`, `Long.toString`) and `Integer.parseInt` /
 * `Long.parseLong` in radix 10.
 */
module JavaText {
  import opened Wrappers
  import opened Bytes

  predicate NoColon(s: string) { ':' !in s }

  predicate AllNoColon(parts: seq<string>) { forall i :: 0 <= i < |parts| ==> NoColon(parts[i]) }

  predicate StartsWith(s: string, prefix: string) { |prefix| <= |s| && s[..|prefix|] == prefix }

  predicate EndsWith(s: string, suffix: string) { |suffix| <= |s| && s[|s| - |suffix|..] == suffix }

  /** The pieces of `s` between its colons, every piece kept (empty ones too). */
  function SplitAll(s: string): (parts: seq<string>)
    ensures |parts| >= 1
    decreases |s|
  {
    if s == [] then [""]
    else if s[0] == ':' then [""] + SplitAll(s[1..])
    else
      var rest := SplitAll(s[1..]);
      [[s[0]] + rest[0]] + rest[1..]
  }

  /** The fields joined by single colons: how every control message is built. */
  function Join(parts: seq<string>): string
    requires |parts| >= 1
  {
    if |parts| == 1 then parts[0] else parts[0] + ":" + Join(parts[1..])
  }

  lemma {:induction false} SplitAllPiecesHaveNoColon(s: string)
    ensures AllNoColon(SplitAll(s))
    decreases |s|
  {
    if s != [] {
      SplitAllPiecesHaveNoColon(s[1..]);
    }
  }

  lemma {:induction false} SplitAllOfColonFree(f: string, tail: Option<string>)
    requires NoColon(f)
    ensures tail.None? ==> SplitAll(f) == [f]
    ensures tail.Some? ==> SplitAll(f + ":" + tail.value) == [f] + SplitAll(tail.value)
    decreases |f|
  {
    if f == [] {
      if tail.Some? {
        assert f + ":" + tail.value == [':'] + tail.value;
        assert ([':'] + tail.value)[1..] == tail.value;
      }
    } else {
      SplitAllOfColonFree(f[1..], tail);
      assert [f[0]] + f[1..] == f;
      if tail.Some? {
        assert (f + ":" + tail.value)[1..] == f[1..] + ":" + tail.value;
      }
    }
  }

  /** Splitting a joined message gives its fields back when no field holds a colon. */
  lemma {:induction false} SplitAllJoin(parts: seq<string>)
    requires |parts| >= 1 && AllNoColon(parts)
    ensures SplitAll(Join(parts)) == parts
  {
    if |parts| == 1 {
      SplitAllOfColonFree(parts[0], None);
    } else {
      SplitAllJoin(parts[1..]);
      SplitAllOfColonFree(parts[0], Some(Join(parts[1..])));
    }
  }

  /** Joining the pieces rebuilds the string: splitting loses nothing but the colons. */
  lemma {:induction false} JoinSplitAll(s: string)
    ensures Join(SplitAll(s)) == s
    decreases |s|
  {
    if s != [] {
      JoinSplitAll(s[1..]);
      var rest := SplitAll(s[1..]);
      if s[0] == ':' {
        assert [""] + rest == [""] + rest;
        assert ([""] + rest)[1..] == rest;
      } else {
        var parts := [[s[0]] + rest[0]] + rest[1..];
        if |rest| == 1 {
          assert Join(parts) == [s[0]] + rest[0];
        } else {
          assert parts[1..] == rest[1..];
          assert Join(rest) == rest[0] + ":" + Join(rest[1..]);
        }
      }
    }
  }

  function DropTrailingEmpty(parts: seq<string>): (r: seq<string>)
    ensures |r| <= |parts| && r == parts[..|r|]
    ensures forall i :: |r| <= i < |parts| ==> parts[i] == ""
    ensures r != [] ==> r[|r| - 1] != ""
  {
    if parts != [] && parts[|parts| - 1] == "" then DropTrailingEmpty(parts[..|parts| - 1]) else parts
  }

  /**
   * `s.split(":")`: every piece between colons, then trailing empty pieces
   * dropped; a string without any colon (the empty string included) is
   * returned whole as the only piece.
   */
  function JavaSplit(s: string): (parts: seq<string>)
    ensures AllNoColon(parts)
    ensures s == "" ==> parts == [""]
    ensures s != "" ==> |parts| <= |SplitAll(s)| && parts == SplitAll(s)[..|parts|]
    ensures s != "" ==> forall i :: |parts| <= i < |SplitAll(s)| ==> SplitAll(s)[i] == ""
    ensures s != "" && parts != [] ==> parts[|parts| - 1] != ""
  {
    SplitAllPiecesHaveNoColon(s);
    if s == "" then [""] else DropTrailingEmpty(SplitAll(s))
  }

  /** The fields of a message come back from `split(":")` when none holds a colon and the last is non-empty. */
  lemma JavaSplitJoin(parts: seq<string>)
    requires |parts| >= 1 && AllNoColon(parts) && parts[|parts| - 1] != ""
    ensures JavaSplit(Join(parts)) == parts
  {
    SplitAllJoin(parts);
    assert SplitAll("") == [""];
  }

  /** A concrete reading of Java's rule: a lone colon splits into nothing at all. */
  lemma LoneColonSplitsToNothing()
    ensures JavaSplit(":") == []
  {
    assert ":"[1..] == "";
    assert SplitAll(":") == ["", ""];
  }

  /** Trailing empty fields are dropped. */
  lemma TrailingColonsDropped()
    ensures JavaSplit("a::") == ["a"]
  {
    assert "a::"[1..] == "::" && "::"[1..] == ":" && ":"[1..] == "";
    assert SplitAll(":") == ["", ""];
    assert SplitAll("::") == ["", "", ""];
    assert ['a'] + "" == "a" && ["", "", ""][1..] == ["", ""];
    assert SplitAll("a::") == ["a", "", ""];
    assert DropTrailingEmpty(["a", "", ""]) == DropTrailingEmpty(["a", ""]) by {
      assert ["a", "", ""][..2] == ["a", ""];
    }
    assert DropTrailingEmpty(["a", ""]) == DropTrailingEmpty(["a"]) by {
      assert ["a", ""][..1] == ["a"];
    }
  }

  /** A leading empty field is kept. */
  lemma LeadingColonKept()
    ensures JavaSplit(":a") == ["", "a"]
  {
    assert ":a"[1..] == "a" && "a"[1..] == "";
    assert SplitAll("") == [""] && ['a'] + "" == "a";
    assert SplitAll("a") == ["a"];
    assert SplitAll(":a") == ["", "a"];
  }

  // ----- decimal text of integers -----

  predicate IsDigit(c: char) { '0' <= c <= '9' }

  predicate AllDigits(s: string) { forall i :: 0 <= i < |s| ==> IsDigit(s[i]) }

  function DigitChar(d: nat): (c: char)
    requires d < 10
    ensures IsDigit(c)
  {
    ('0' as int + d) as char
  }

  /** The decimal digits of `n`, most significant first, without leading zeros. */
  function NatDigits(n: nat): (r: string)
    ensures |r| >= 1 && AllDigits(r)
    ensures |r| > 1 ==> r[0] != '0'
  {
    if n < 10 then [DigitChar(n)] else NatDigits(n / 10) + [DigitChar(n % 10)]
  }

  /** `Integer.toString` / `Long.toString` (what `"" + x` produces). */
  function IntToString(x: int): (r: string)
    ensures r != "" && NoColon(r)
  {
    if x < 0 then "-" + NatDigits(-x) else NatDigits(x)
  }

  /** The value of a string of decimal digits. */
  function DigitsValue(s: string): nat
    requires AllDigits(s)
  {
    if s == [] then 0 else DigitsValue(s[..|s| - 1]) * 10 + (s[|s| - 1] as int - '0' as int)
  }

  lemma {:induction false} DigitsValueOfNatDigits(n: nat)
    ensures DigitsValue(NatDigits(n)) == n
  {
    if n >= 10 {
      DigitsValueOfNatDigits(n / 10);
      var s := NatDigits(n);
      assert s[..|s| - 1] == NatDigits(n / 10);
    }
  }

  /**
   * Java's radix-10 `parseInt`/`parseLong`: an optional sign, at least one
   * digit, and a value within [lo, hi]; anything else is a
   * `NumberFormatException`, modelled as `None`.
   */
  function ParseInteger(s: string, lo: int, hi: int): (r: Option<int>)
    ensures r.Some? ==> lo <= r.value <= hi
  {
    if s == [] then None
    else
      var digits := if s[0] == '-' || s[0] == '+' then s[1..] else s;
      if digits == [] || !AllDigits(digits) then None
      else
        var v: int := if s[0] == '-' then -(DigitsValue(digits) as int) else DigitsValue(digits);
        if lo <= v <= hi then Some(v) else None
  }

  /** `Integer.parseInt(s)`. */
  function ParseInt(s: string): (r: Option<int>)
    ensures r.Some? ==> IsInt32(r.value)
  {
    ParseInteger(s, INT32_MIN, INT32_MAX)
  }

  /** `Long.parseLong(s)`. */
  function ParseLong(s: string): (r: Option<int>)
    ensures r.Some? ==> IsInt64(r.value)
  {
    ParseInteger(s, INT64_MIN, INT64_MAX)
  }

  lemma ParseIntegerOfIntToString(x: int, lo: int, hi: int)
    requires lo <= x <= hi
    ensures ParseInteger(IntToString(x), lo, hi) == Some(x)
  {
    var s := IntToString(x);
    if x < 0 {
      DigitsValueOfNatDigits(-x);
      assert s[1..] == NatDigits(-x);
    } else {
      DigitsValueOfNatDigits(x);
    }
  }

  /** Printing an `int` and parsing it back with `Integer.parseInt` is the identity. */
  lemma ParseIntOfIntToString(x: int)
    requires IsInt32(x)
    ensures ParseInt(IntToString(x)) == Some(x)
  {
    ParseIntegerOfIntToString(x, INT32_MIN, INT32_MAX);
  }

  /** Printing a `long` and parsing it back with `Long.parseLong` is the identity. */
  lemma ParseLongOfIntToString(x: int)
    requires IsInt64(x)
    ensures ParseLong(IntToString(x)) == Some(x)
  {
    ParseIntegerOfIntToString(x, INT64_MIN, INT64_MAX);
  }
}
