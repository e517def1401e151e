/** The .NET text handling of Equation.Parse (String.Split on one character, String.Trim
    through TrimEntries, Int64.Parse under NumberStyles.Integer) and of the driver's
    printed line (String.Join, Int64.ToString). */
module Text {

  datatype Option<T> = None | Some(value: T)

  /** The characters NumberStyles.AllowLeadingWhite / AllowTrailingWhite accept:
      U+0009 to U+000D and the space. */
  predicate IsWhite(c: char) {
    c == ' ' || ('\t' <= c <= '\r')
  }

  predicate IsDigit(c: char) {
    '0' <= c <= '9'
  }

  predicate AllDigits(d: string) {
    forall k :: 0 <= k < |d| ==> IsDigit(d[k])
  }

  /** Neither end of s is white space (the empty string included). */
  predicate Trimmed(s: string) {
    s == [] || (!IsWhite(s[0]) && !IsWhite(s[|s| - 1]))
  }

  // ---------------------------------------------------------------------------
  // Trim

  /** Drops the leading white space. */
  function TrimStart(s: string): (r: string)
    ensures |r| <= |s|
    ensures r == [] || !IsWhite(r[0])
  {
    if s != [] && IsWhite(s[0]) then TrimStart(s[1..]) else s
  }

  /** What TrimStart drops is white, and what it keeps is a suffix. */
  lemma {:induction false} TrimStartDrops(s: string)
    ensures TrimStart(s) == s[|s| - |TrimStart(s)|..]
    ensures forall k :: 0 <= k < |s| - |TrimStart(s)| ==> IsWhite(s[k])
  {
    if s != [] && IsWhite(s[0]) {
      TrimStartDrops(s[1..]);
      var r := TrimStart(s);
      assert forall k :: 1 <= k < |s| - |r| ==> s[k] == s[1..][k - 1];
    }
  }

  /** Drops the trailing white space. */
  function TrimEnd(s: string): (r: string)
    ensures |r| <= |s|
    ensures r == [] || !IsWhite(r[|r| - 1])
  {
    if s != [] && IsWhite(s[|s| - 1]) then TrimEnd(s[..|s| - 1]) else s
  }

  /** What TrimEnd drops is white, and what it keeps is a prefix. */
  lemma {:induction false} TrimEndDrops(s: string)
    ensures TrimEnd(s) == s[..|TrimEnd(s)|]
    ensures forall k :: |TrimEnd(s)| <= k < |s| ==> IsWhite(s[k])
  {
    if s != [] && IsWhite(s[|s| - 1]) {
      TrimEndDrops(s[..|s| - 1]);
      var r := TrimEnd(s);
      assert forall k :: |r| <= k < |s| - 1 ==> s[k] == s[..|s| - 1][k];
    }
  }

  /** String.Trim: removes white space at both ends, and only there. */
  function Trim(s: string): (r: string)
    ensures Trimmed(r)
    ensures |r| <= |s|
  {
    var t := TrimStart(s);
    TrimEndDrops(t);
    TrimEnd(t)
  }

  /** Trim changes exactly the strings that have white space at an end. */
  lemma TrimIdentity(s: string)
    ensures Trim(s) == s <==> Trimmed(s)
  {
    if Trimmed(s) && s != [] {
      assert TrimStart(s) == s;
      assert TrimEnd(s) == s;
    }
  }

  lemma TrimIdempotent(s: string)
    ensures Trim(Trim(s)) == Trim(s)
  {
    TrimIdentity(Trim(s));
  }

  /** A string of white space trims to nothing. */
  lemma {:induction false} TrimAllWhite(s: string)
    requires forall k :: 0 <= k < |s| ==> IsWhite(s[k])
    ensures Trim(s) == []
  {
    if s != [] {
      TrimAllWhite(s[1..]);
    }
  }

  /** Leading white space in front of a trimmed string is all Trim removes. */
  lemma {:induction false} TrimLeadingSpace(s: string)
    requires Trimmed(s)
    ensures Trim([' '] + s) == s
  {
    var t := [' '] + s;
    assert t[1..] == s;
    if s == [] {
      TrimAllWhite(t);
    } else {
      assert TrimStart(t) == TrimStart(s) == s;
      TrimIdentity(s);
    }
  }

  // ---------------------------------------------------------------------------
  // Split and Join

  /** String.Join(sep, parts). */
  function Join(parts: seq<string>, sep: char): string
  {
    if parts == [] then []
    else if |parts| == 1 then parts[0]
    else parts[0] + [sep] + Join(parts[1..], sep)
  }

  /** String.Split(sep) with no options: the maximal separator-free pieces, in order,
      empty pieces included, so that joining them back gives the input. */
  function Split(s: string, sep: char): (parts: seq<string>)
    ensures |parts| >= 1
    ensures forall k :: 0 <= k < |parts| ==> sep !in parts[k]
    ensures Join(parts, sep) == s
  {
    if s == [] then [[]]
    else
      var rest := Split(s[1..], sep);
      if s[0] == sep then
        assert s == [sep] + s[1..];
        [[]] + rest
      else
        var parts := [[s[0]] + rest[0]] + rest[1..];
        assert parts[1..] == rest[1..];
        assert |rest| > 1 ==> Join(rest, sep) == rest[0] + [sep] + Join(rest[1..], sep);
        assert s == [s[0]] + s[1..];
        parts
  }

  /** A string without the separator is one piece. */
  lemma {:induction false} SplitNoSep(s: string, sep: char)
    requires sep !in s
    ensures Split(s, sep) == [s]
  {
    if s != [] {
      assert sep !in s[1..];
      SplitNoSep(s[1..], sep);
    }
  }

  /** Splitting at a separator splits the two sides independently. */
  lemma {:induction false} SplitAround(x: string, y: string, sep: char)
    ensures Split(x + [sep] + y, sep) == Split(x, sep) + Split(y, sep)
  {
    var s := x + [sep] + y;
    if x == [] {
      assert s[1..] == y;
    } else {
      assert s[1..] == x[1..] + [sep] + y;
      SplitAround(x[1..], y, sep);
    }
  }

  /** A line with exactly one separator has two fields, the text before it and after it. */
  lemma SplitFields(a: string, b: string, sep: char)
    requires sep !in a && sep !in b
    ensures Split(a + [sep] + b, sep) == [a, b]
  {
    SplitAround(a, b, sep);
    SplitNoSep(a, sep);
    SplitNoSep(b, sep);
  }

  /** Splitting undoes joining when no piece holds the separator. */
  lemma {:induction false} SplitJoin(parts: seq<string>, sep: char)
    requires |parts| >= 1
    requires forall k :: 0 <= k < |parts| ==> sep !in parts[k]
    ensures Split(Join(parts, sep), sep) == parts
  {
    if |parts| == 1 {
      SplitNoSep(parts[0], sep);
    } else {
      SplitNoSep(parts[0], sep);
      SplitJoin(parts[1..], sep);
      SplitAround(parts[0], Join(parts[1..], sep), sep);
    }
  }

  /** A character in none of the pieces, other than the separator, is not in the join. */
  lemma {:induction false} JoinAvoids(parts: seq<string>, sep: char, c: char)
    requires c != sep
    requires forall k :: 0 <= k < |parts| ==> c !in parts[k]
    ensures c !in Join(parts, sep)
  {
    if |parts| > 1 {
      JoinAvoids(parts[1..], sep, c);
    }
  }

  /** Joining non-empty trimmed pieces with a space gives a trimmed string. */
  lemma {:induction false} JoinTrimmed(parts: seq<string>)
    requires forall k :: 0 <= k < |parts| ==> parts[k] != [] && Trimmed(parts[k])
    ensures Trimmed(Join(parts, ' '))
    ensures parts != [] ==> Join(parts, ' ') != []
  {
    if |parts| > 1 {
      JoinTrimmed(parts[1..]);
      var j := Join(parts, ' ');
      var tail := Join(parts[1..], ' ');
      assert j[0] == parts[0][0];
      assert j[|j| - 1] == tail[|tail| - 1];
    }
  }

  /** StringSplitOptions.RemoveEmptyEntries: the non-empty pieces, in order. */
  function RemoveEmpty(parts: seq<string>): (r: seq<string>)
    ensures |r| <= |parts|
    ensures forall k :: 0 <= k < |r| ==> r[k] != []
    ensures forall p :: p in r <==> p in parts && p != []
  {
    if parts == [] then []
    else (if parts[0] == [] then [] else [parts[0]]) + RemoveEmpty(parts[1..])
  }

  lemma {:induction false} RemoveEmptyConcat(a: seq<string>, b: seq<string>)
    ensures RemoveEmpty(a + b) == RemoveEmpty(a) + RemoveEmpty(b)
  {
    if a != [] {
      assert (a + b)[0] == a[0] && (a + b)[1..] == a[1..] + b;
      RemoveEmptyConcat(a[1..], b);
      var head: seq<string> := if a[0] == [] then [] else [a[0]];
      assert RemoveEmpty(a + b) == head + RemoveEmpty(a[1..] + b);
      assert RemoveEmpty(a) == head + RemoveEmpty(a[1..]);
    } else {
      assert a + b == b;
    }
  }

  /** Nothing is removed from a list of non-empty pieces. */
  lemma {:induction false} RemoveEmptyNoop(parts: seq<string>)
    requires forall k :: 0 <= k < |parts| ==> parts[k] != []
    ensures RemoveEmpty(parts) == parts
  {
    if parts != [] {
      RemoveEmptyNoop(parts[1..]);
    }
  }

  // ---------------------------------------------------------------------------
  // Decimal integers

  const LongMin: int := -0x8000_0000_0000_0000
  const LongMax: int := 0x7FFF_FFFF_FFFF_FFFF

  /** The range of a C# long. */
  predicate InLong(n: int) {
    LongMin <= n <= LongMax
  }

  function DigitChar(n: nat): (c: char)
    requires n < 10
    ensures IsDigit(c)
  {
    ('0' as int + n) as char
  }

  /** The value of a string of decimal digits, most significant first. */
  function DigitsValue(d: string): nat
    requires AllDigits(d)
  {
    if d == [] then 0
    else DigitsValue(d[..|d| - 1]) * 10 + (d[|d| - 1] as int - '0' as int)
  }

  /** The decimal digits of n; reading them back gives n. */
  function ShowNat(n: nat): (d: string)
    ensures d != [] && AllDigits(d)
    ensures DigitsValue(d) == n
  {
    if n < 10 then [DigitChar(n)]
    else
      var d := ShowNat(n / 10) + [DigitChar(n % 10)];
      assert d[..|d| - 1] == ShowNat(n / 10);
      d
  }

  /** Int64.ToString(): an optional '-' and the decimal digits. */
  function Show(n: int): (s: string)
    ensures s != [] && Trimmed(s)
  {
    if n < 0 then ['-'] + ShowNat(-n) else ShowNat(n)
  }

  /** Int64.ToString writes only digits and a minus sign. */
  lemma ShowAlphabet(n: int)
    ensures forall k :: 0 <= k < |Show(n)| ==> IsDigit(Show(n)[k]) || Show(n)[k] == '-'
  {
  }

  /** Int64.Parse under NumberStyles.Integer: surrounding white space, one optional
      leading sign, at least one decimal digit, and a value in range. Anything else
      is a FormatException or an OverflowException, both None here. */
  function ParseLong(s: string): (r: Option<int>)
    ensures r.Some? ==> InLong(r.value)
  {
    ParseSigned(Trim(s))
  }

  /** Int64.Parse rejects a string that, once trimmed, is empty, starts with anything
      but a digit or a sign, or has a non-digit after its first character. */
  lemma ParseLongRejects(s: string)
    requires var u := Trim(s);
             || u == []
             || !(IsDigit(u[0]) || u[0] == '-' || u[0] == '+')
             || (exists k :: 0 < k < |u| && !IsDigit(u[k]))
    ensures ParseLong(s) == None
  {
    var u := Trim(s);
    if u != [] && (u[0] == '-' || u[0] == '+') {
      assert forall k :: 0 < k < |u| ==> u[k] == u[1..][k - 1];
    }
  }

  /** The part of Int64.Parse after the white space is gone: sign, digits, range. */
  function ParseSigned(u: string): (r: Option<int>)
    ensures r.Some? ==> InLong(r.value)
  {
    if u == [] then None
    else
      var signed := u[0] == '-' || u[0] == '+';
      var digits := if signed then u[1..] else u;
      if digits == [] || !AllDigits(digits) then None
      else
        var v: int := if u[0] == '-' then -(DigitsValue(digits) as int) else DigitsValue(digits);
        if InLong(v) then Some(v) else None
  }

  /** Int64.Parse reads back what Int64.ToString writes. */
  lemma ParseShow(n: int)
    requires InLong(n)
    ensures ParseLong(Show(n)) == Some(n)
  {
    var s := Show(n);
    TrimIdentity(s);
    if n < 0 {
      assert s[1..] == ShowNat(-n);
    }
  }

  /** Int64.Parse trims its argument, so trimming first changes nothing. */
  lemma ParseLongTrim(s: string)
    ensures ParseLong(Trim(s)) == ParseLong(s)
  {
    TrimIdempotent(s);
  }
}
