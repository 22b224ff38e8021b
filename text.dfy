/**
 * The Python string methods the search tool relies on: lower(), upper(),
 * title(), split(sep), sep.join(parts), strip(), endswith(), replace() and
 * str() of a non-negative int. Case mapping and whitespace are modelled on
 * the ASCII range.
 */
module Text {

  predicate IsUpper(c: char) { 'A' <= c <= 'Z' }
  predicate IsLower(c: char) { 'a' <= c <= 'z' }

  /** A cased character in the sense of str.title(). */
  predicate IsCased(c: char) { IsUpper(c) || IsLower(c) }

  predicate IsDigit(c: char) { '0' <= c <= '9' }

  /** str.isspace() on ASCII: tab, line feed, vertical tab, form feed,
      carriage return, the four information separators and space. */
  predicate IsSpace(c: char) { c == ' ' || 9 <= c as int <= 13 || 28 <= c as int <= 31 }

  function LowerChar(c: char): char { if IsUpper(c) then (c as int + 32) as char else c }
  function UpperChar(c: char): char { if IsLower(c) then (c as int - 32) as char else c }

  function Lower(s: string): string { seq(|s|, i requires 0 <= i < |s| => LowerChar(s[i])) }
  function Upper(s: string): string { seq(|s|, i requires 0 <= i < |s| => UpperChar(s[i])) }

  predicate Distinct<T(==)>(s: seq<T>) { forall i, j :: 0 <= i < j < |s| ==> s[i] != s[j] }

  /** The set of elements of a sequence. */
  function Elems<T>(s: seq<T>): set<T> { set x | x in s }

  // ---------------------------------------------------------------- split / join

  /** s.split(sep) for a one-character separator: the fields between
      separators, empty fields included; there is always at least one. */
  function Split(s: string, sep: char): (r: seq<string>)
    ensures |r| >= 1
    decreases |s|
  {
    if s == [] then [""]
    else
      var rest := Split(s[1..], sep);
      if s[0] == sep then [""] + rest else [[s[0]] + rest[0]] + rest[1..]
  }

  /** sep.join(parts) */
  function Join(parts: seq<string>, sep: string): string
    decreases |parts|
  {
    if parts == [] then ""
    else if |parts| == 1 then parts[0]
    else parts[0] + sep + Join(parts[1..], sep)
  }

  /** split is undone by join, and no field holds the separator. */
  lemma {:induction false} SplitJoin(s: string, sep: char)
    ensures Join(Split(s, sep), [sep]) == s
    ensures forall i :: 0 <= i < |Split(s, sep)| ==> sep !in Split(s, sep)[i]
    decreases |s|
  {
    if s != [] {
      SplitJoin(s[1..], sep);
      var rest := Split(s[1..], sep);
      if s[0] == sep {
        assert Split(s, sep) == [""] + rest;
        assert Join([""] + rest, [sep]) == "" + [sep] + Join(rest, [sep]);
        assert s == [sep] + s[1..];
      } else {
        var r := Split(s, sep);
        assert r == [[s[0]] + rest[0]] + rest[1..];
        if |rest| == 1 {
          assert Join(r, [sep]) == [s[0]] + rest[0];
        } else {
          assert Join(rest, [sep]) == rest[0] + [sep] + Join(rest[1..], [sep]);
          assert Join(r, [sep]) == [s[0]] + rest[0] + [sep] + Join(r[1..], [sep]);
          assert r[1..] == rest[1..];
        }
        assert s == [s[0]] + s[1..];
        forall i | 0 <= i < |r| ensures sep !in r[i] {
          if i == 0 {
            assert sep !in rest[0];
          } else {
            assert r[i] == rest[i];
          }
        }
      }
    }
  }

  /** A separator splits the fields of the text around it apart. */
  lemma {:induction false} SplitAround(x: string, y: string, sep: char)
    ensures Split(x + [sep] + y, sep) == Split(x, sep) + Split(y, sep)
    decreases |x|
  {
    var z := x + [sep] + y;
    if x == [] {
      assert z[1..] == y;
    } else {
      assert z[0] == x[0] && z[1..] == x[1..] + [sep] + y;
      SplitAround(x[1..], y, sep);
      SplitConsAround(x, z, Split(y, sep), sep);
    }
  }

  /** One step of SplitAround: x and z start alike and their tails split
      into fields that differ only by the trailing fields c. */
  lemma SplitConsAround(x: string, z: string, c: seq<string>, sep: char)
    requires x != [] && z != [] && z[0] == x[0]
    requires Split(z[1..], sep) == Split(x[1..], sep) + c
    ensures Split(z, sep) == Split(x, sep) + c
  {
    if x[0] == sep {
      SplitSepAround(x, z, c, sep);
    } else {
      SplitCharAround(x, z, c, sep);
    }
  }

  lemma SplitSepAround(x: string, z: string, c: seq<string>, sep: char)
    requires x != [] && z != [] && z[0] == x[0] && x[0] == sep
    requires Split(z[1..], sep) == Split(x[1..], sep) + c
    ensures Split(z, sep) == Split(x, sep) + c
  {
    SplitConsSep(x, sep);
    SplitConsSep(z, sep);
    ConsAssoc([], Split(x[1..], sep), c);
  }

  /** The first field and the tail of a field list extended with c. */
  lemma AppendTail(b: seq<string>, c: seq<string>)
    requires b != []
    ensures (b + c)[0] == b[0] && (b + c)[1..] == b[1..] + c
  {
  }

  /** Prepending a field commutes with appending fields. */
  lemma ConsAssoc(f: string, b: seq<string>, c: seq<string>)
    ensures [f] + (b + c) == ([f] + b) + c
  {
  }

  lemma SplitCharAround(x: string, z: string, c: seq<string>, sep: char)
    requires x != [] && z != [] && z[0] == x[0] && x[0] != sep
    requires Split(z[1..], sep) == Split(x[1..], sep) + c
    ensures Split(z, sep) == Split(x, sep) + c
  {
    var b := Split(x[1..], sep);
    SplitConsField(x, sep);
    SplitConsField(z, sep);
    AppendTail(b, c);
    ConsAssoc([x[0]] + b[0], b[1..], c);
  }

  /** A leading separator ends an empty first field. */
  lemma SplitConsSep(s: string, sep: char)
    requires s != [] && s[0] == sep
    ensures Split(s, sep) == [""] + Split(s[1..], sep)
  {
  }

  /** A leading character other than the separator joins the first field. */
  lemma SplitConsField(s: string, sep: char)
    requires s != [] && s[0] != sep
    ensures Split(s, sep) == [[s[0]] + Split(s[1..], sep)[0]] + Split(s[1..], sep)[1..]
  {
  }

  /** Text without the separator is a single field. */
  lemma {:induction false} SplitWithoutSep(t: string, sep: char)
    requires sep !in t
    ensures Split(t, sep) == [t]
    decreases |t|
  {
    if t != [] {
      SplitWithoutSep(t[1..], sep);
      assert t == [t[0]] + t[1..];
    }
  }

  /** a occurs in b from position j on. */
  predicate InfixAt(a: string, b: string, j: int) { 0 <= j && j + |a| <= |b| && b[j..j + |a|] == a }

  /** a occurs as a contiguous piece of b. */
  ghost predicate IsInfix(a: string, b: string) { exists j :: InfixAt(a, b, j) }

  /** sep.join(parts) starts with the first part and contains every part. */
  lemma {:induction false} JoinHasParts(parts: seq<string>, sep: string)
    ensures parts != [] ==> parts[0] <= Join(parts, sep)
    ensures forall i :: 0 <= i < |parts| ==> IsInfix(parts[i], Join(parts, sep))
    decreases |parts|
  {
    if |parts| == 1 {
      assert InfixAt(parts[0], Join(parts, sep), 0);
    } else if |parts| > 1 {
      var rest := parts[1..];
      JoinHasParts(rest, sep);
      var whole := Join(parts, sep);
      assert whole == parts[0] + sep + Join(rest, sep);
      assert InfixAt(parts[0], whole, 0);
      forall i | 1 <= i < |parts| ensures IsInfix(parts[i], whole) {
        assert parts[i] == rest[i - 1];
        var j :| InfixAt(rest[i - 1], Join(rest, sep), j);
        InfixShift(parts[i], Join(rest, sep), parts[0] + sep, j);
      }
    }
  }

  /** An occurrence in b is an occurrence in pre + b, |pre| further on. */
  lemma InfixShift(a: string, b: string, pre: string, j: int)
    requires InfixAt(a, b, j)
    ensures InfixAt(a, pre + b, |pre| + j)
  {
    assert (pre + b)[|pre| + j..|pre| + j + |a|] == b[j..j + |a|];
  }

  // ---------------------------------------------------------------- endswith / replace

  predicate EndsWith(s: string, suffix: string) { |suffix| <= |s| && s[|s| - |suffix|..] == suffix }

  /** s.replace(from, into) for a one-character from. */
  function ReplaceChar(s: string, from: char, into: string): string
    decreases |s|
  {
    if s == [] then "" else (if s[0] == from then into else [s[0]]) + ReplaceChar(s[1..], from, into)
  }

  /** Replacing a character by text without it removes it; text without it
      is unchanged; a one-character replacement puts that character where
      every occurrence stood and leaves every other character in place. */
  lemma {:induction false} ReplaceCharSpec(s: string, from: char, into: string)
    ensures from !in into ==> from !in ReplaceChar(s, from, into)
    ensures from !in s ==> ReplaceChar(s, from, into) == s
    ensures |into| == 1 ==> |ReplaceChar(s, from, into)| == |s|
    ensures |into| == 1 ==> forall i :: 0 <= i < |s| ==>
      ReplaceChar(s, from, into)[i] == if s[i] == from then into[0] else s[i]
    decreases |s|
  {
    if s != [] {
      ReplaceCharSpec(s[1..], from, into);
      assert s == [s[0]] + s[1..];
      if |into| == 1 {
        var r, rest := ReplaceChar(s, from, into), ReplaceChar(s[1..], from, into);
        assert r == (if s[0] == from then into else [s[0]]) + rest;
        forall i | 1 <= i < |s| ensures r[i] == rest[i - 1] && s[i] == s[1..][i - 1] {}
      }
    }
  }

  // ---------------------------------------------------------------- strip

  function StripLeft(s: string): string
    decreases |s|
  {
    if s != [] && IsSpace(s[0]) then StripLeft(s[1..]) else s
  }

  function StripRight(s: string): string
    decreases |s|
  {
    if s != [] && IsSpace(s[|s| - 1]) then StripRight(s[..|s| - 1]) else s
  }

  /** s.strip() */
  function Strip(s: string): string { StripRight(StripLeft(s)) }

  predicate AllSpace(s: string) { forall i :: 0 <= i < |s| ==> IsSpace(s[i]) }

  lemma {:induction false} StripLeftPadded(a: string, t: string)
    requires AllSpace(a) && t != [] && !IsSpace(t[0])
    ensures StripLeft(a + t) == t
    decreases |a|
  {
    if a == [] {
      assert a + t == t;
    } else {
      assert (a + t)[1..] == a[1..] + t;
      StripLeftPadded(a[1..], t);
    }
  }

  lemma {:induction false} StripRightPadded(t: string, b: string)
    requires AllSpace(b) && t != [] && !IsSpace(t[|t| - 1])
    ensures StripRight(t + b) == t
    decreases |b|
  {
    if b == [] {
      assert t + b == t;
    } else {
      assert (t + b)[..|t + b| - 1] == t + b[..|b| - 1];
      StripRightPadded(t, b[..|b| - 1]);
    }
  }

  /** strip() removes exactly the surrounding whitespace of a text that does
      not itself start or end with whitespace. */
  lemma StripPadded(a: string, t: string, b: string)
    requires AllSpace(a) && AllSpace(b)
    requires t != [] && !IsSpace(t[0]) && !IsSpace(t[|t| - 1])
    ensures Strip(a + t + b) == t
  {
    assert a + t + b == a + (t + b);
    StripLeftPadded(a, t + b);
    StripRightPadded(t, b);
  }

  // ---------------------------------------------------------------- str(n)

  function DigitChar(d: nat): char
    requires d < 10
  {
    ('0' as int + d) as char
  }

  function DigitValue(c: char): nat { if IsDigit(c) then c as int - '0' as int else 0 }

  /** str(n) for n >= 0: decimal digits, most significant first. */
  function NatToString(n: nat): string
    decreases n
  {
    if n < 10 then [DigitChar(n)] else NatToString(n / 10) + [DigitChar(n % 10)]
  }

  /** The number a string of decimal digits denotes (int(s)). */
  function DigitsValue(s: string): nat
    decreases |s|
  {
    if s == [] then 0 else DigitsValue(s[..|s| - 1]) * 10 + DigitValue(s[|s| - 1])
  }

  predicate AllDigits(s: string) { forall i :: 0 <= i < |s| ==> IsDigit(s[i]) }

  /** str(n) is a non-empty run of digits, without a leading zero unless n
      is 0, that reads back as n. */
  lemma {:induction false} NatToStringDigits(n: nat)
    ensures NatToString(n) != [] && AllDigits(NatToString(n))
    ensures NatToString(n)[0] != '0' || n == 0
    ensures DigitsValue(NatToString(n)) == n
    decreases n
  {
    var s := NatToString(n);
    if n < 10 {
      assert s[..0] == [];
    } else {
      NatToStringDigits(n / 10);
      assert s[..|s| - 1] == NatToString(n / 10);
      assert s[0] == NatToString(n / 10)[0];
    }
  }

  // ---------------------------------------------------------------- title

  /** str.title(): a cased character is upper-cased when the character
      before it is not cased and lower-cased otherwise. */
  function Title(s: string): string { TitleAfter(s, false) }

  function TitleAfter(s: string, prevCased: bool): string
    decreases |s|
  {
    if s == [] then ""
    else
      var c := s[0];
      [if !IsCased(c) then c else if prevCased then LowerChar(c) else UpperChar(c)]
        + TitleAfter(s[1..], IsCased(c))
  }

  lemma {:induction false} TitleAfterSpec(s: string, prevCased: bool)
    ensures |TitleAfter(s, prevCased)| == |s|
    ensures Lower(TitleAfter(s, prevCased)) == Lower(s)
    ensures forall i :: 0 <= i < |s| ==>
      (IsCased(TitleAfter(s, prevCased)[i]) <==> IsCased(s[i]))
    ensures forall i :: 0 <= i < |s| && IsCased(s[i]) ==>
      (IsUpper(TitleAfter(s, prevCased)[i]) <==> (if i == 0 then !prevCased else !IsCased(s[i - 1])))
    decreases |s|
  {
    if s != [] {
      TitleAfterSpec(s[1..], IsCased(s[0]));
      var r := TitleAfter(s, prevCased);
      var rest := TitleAfter(s[1..], IsCased(s[0]));
      assert r == [r[0]] + rest;
      forall i | 1 <= i < |s| ensures r[i] == rest[i - 1] && s[i] == s[1..][i - 1] {}
      forall i | 0 <= i < |s| ensures Lower(r)[i] == Lower(s)[i] {
        if i > 0 {
          assert Lower(r)[i] == Lower(rest)[i - 1];
          assert Lower(s)[i] == Lower(s[1..])[i - 1];
        }
      }
    }
  }

  /** title() changes only case: every cased character ends up upper-case
      exactly when it starts a word (no cased character right before it). */
  lemma TitleSpec(s: string)
    ensures |Title(s)| == |s| && Lower(Title(s)) == Lower(s)
    ensures forall i :: 0 <= i < |s| ==> (IsCased(Title(s)[i]) <==> IsCased(s[i]))
    ensures forall i :: 0 <= i < |s| && IsCased(s[i]) ==>
      (IsUpper(Title(s)[i]) <==> (i == 0 || !IsCased(s[i - 1])))
  {
    TitleAfterSpec(s, false);
  }

  /** title() leaves every character that is not a letter where it was. */
  lemma TitleKeepsUncased(s: string)
    ensures |Title(s)| == |s|
    ensures forall i :: 0 <= i < |s| && !IsCased(s[i]) ==> Title(s)[i] == s[i]
  {
    TitleAfterKeepsUncased(s, false);
  }

  lemma {:induction false} TitleAfterKeepsUncased(s: string, prevCased: bool)
    ensures |TitleAfter(s, prevCased)| == |s|
    ensures forall i :: 0 <= i < |s| && !IsCased(s[i]) ==> TitleAfter(s, prevCased)[i] == s[i]
    decreases |s|
  {
    if s != [] {
      TitleAfterKeepsUncased(s[1..], IsCased(s[0]));
      var r := TitleAfter(s, prevCased);
      forall i | 1 <= i < |s| ensures r[i] == TitleAfter(s[1..], IsCased(s[0]))[i - 1] && s[i] == s[1..][i - 1] {}
    }
  }
}
