/** The Equation record and its one-line text format "<target>: <n1> <n2> ...". */
module Equations {
  import opened Text

  /** A target (TestValue) and the operands (Numbers) to combine, left to right. */
  datatype Equation = Equation(testValue: int, numbers: seq<int>)

  /** Why a line is not an equation. Equation.Parse reports these as exceptions:
      Int64.Parse on the target (FormatException or OverflowException), the missing
      second field (IndexOutOfRangeException), Int64.Parse on an operand. */
  datatype ParseError = InvalidTarget | MissingColon | InvalidOperand

  datatype ParseResult = Success(value: Equation) | Failure(error: ParseError)

  /** Splitting on ' ' with RemoveEmptyEntries: runs of spaces separate, and never yield a token. */
  function Tokens(s: string): (toks: seq<string>)
    ensures forall k :: 0 <= k < |toks| ==> toks[k] != [] && ' ' !in toks[k]
  {
    var parts := Split(s, ' ');
    var toks := RemoveEmpty(parts);
    assert forall p :: p in parts ==> ' ' !in p;
    toks
  }

  /** Select(f).ToArray() with an f that may fail (throw): every element mapped, in
      order, or nothing as soon as one fails. */
  function SelectAll<A, B>(xs: seq<A>, f: A -> Option<B>): (r: Option<seq<B>>)
    ensures r.Some? <==> forall k :: 0 <= k < |xs| ==> f(xs[k]).Some?
    ensures r.Some? ==> |r.value| == |xs| && forall k :: 0 <= k < |xs| ==> f(xs[k]) == Some(r.value[k])
  {
    if xs == [] then Some([])
    else
      match f(xs[0])
      case None => None
      case Some(y) =>
        match SelectAll(xs[1..], f)
        case None =>
          assert !f(xs[1..][0]).Some? || exists k :: 1 <= k < |xs| && !f(xs[k]).Some?;
          None
        case Some(ys) =>
          assert forall k :: 1 <= k < |xs| ==> xs[k] == xs[1..][k - 1];
          Some([y] + ys)
  }

  /** Equation.Parse: split on ':', then read the first field and, if there is one,
      the second; any later field is never looked at. */
  function Parse(line: string): (r: ParseResult)
    ensures r.Success? ==> InLong(r.value.testValue)
    ensures r.Success? ==> forall k :: 0 <= k < |r.value.numbers| ==> InLong(r.value.numbers[k])
  {
    var parts := Split(line, ':');
    ReadFields(parts[0], if |parts| < 2 then None else Some(parts[1]))
  }

  /** Trim the first field and parse it as the target; only then is the second field
      needed (its absence is the IndexOutOfRangeException): trim it, split it on ' '
      and parse each non-empty token. */
  function ReadFields(first: string, second: Option<string>): (r: ParseResult)
    ensures ParseLong(Trim(first)).None? ==> r == Failure(InvalidTarget)
    ensures ParseLong(Trim(first)).Some? && second.None? ==> r == Failure(MissingColon)
    ensures r.Success? ==> InLong(r.value.testValue)
    ensures r.Success? ==> forall k :: 0 <= k < |r.value.numbers| ==> InLong(r.value.numbers[k])
  {
    match ParseLong(Trim(first))
    case None => Failure(InvalidTarget)
    case Some(testValue) =>
      match second
      case None => Failure(MissingColon)
      case Some(field) =>
        match SelectAll(Tokens(Trim(field)), ParseLong)
        case None => Failure(InvalidOperand)
        case Some(numbers) =>
          assert forall k :: 0 <= k < |numbers| ==> InLong(numbers[k]) by {
            forall k | 0 <= k < |numbers| ensures InLong(numbers[k]) {
              assert ParseLong(Tokens(Trim(field))[k]) == Some(numbers[k]);
            }
          }
          Success(Equation(testValue, numbers))
  }

  /** The decimal renderings of the operands, as string.Join receives them. */
  function Shows(ns: seq<int>): (ss: seq<string>)
    ensures |ss| == |ns|
  {
    seq(|ns|, k requires 0 <= k < |ns| => Show(ns[k]))
  }

  /** "{TestValue}: {string.Join(" ", Numbers)}": the part of the driver's output line
      for a solvable equation that follows its "  ✓ " marker. */
  function Format(eq: Equation): string
  {
    Show(eq.testValue) + [':', ' '] + Join(Shows(eq.numbers), ' ')
  }

  predicate InRange(eq: Equation) {
    InLong(eq.testValue) && forall k :: 0 <= k < |eq.numbers| ==> InLong(eq.numbers[k])
  }

  // ---------------------------------------------------------------------------
  // What Parse accepts and produces

  /** What reading the fields a and b gives: success exactly when a is a number and so is
      every space-separated token of the trimmed b; the target is a's value and the
      operands are the tokens' values, one per token, in order; an unreadable a is
      InvalidTarget and any other failure InvalidOperand. */
  ghost predicate ReadsAs(r: ParseResult, a: string, b: string)
  {
    var toks := Tokens(Trim(b));
    && (r.Success? <==> ParseLong(a).Some? && forall k :: 0 <= k < |toks| ==> ParseLong(toks[k]).Some?)
    && (ParseLong(a).None? ==> r == Failure(InvalidTarget))
    && (ParseLong(a).Some? && r.Failure? ==> r == Failure(InvalidOperand))
    && (r.Success? ==> Some(r.value.testValue) == ParseLong(a)
                        && |r.value.numbers| == |toks|
                        && forall k :: 0 <= k < |toks| ==> ParseLong(toks[k]) == Some(r.value.numbers[k]))
  }

  /** A line "a:b" with no further colon reads as its two fields. */
  lemma ParseFields(a: string, b: string)
    requires ':' !in a && ':' !in b
    ensures ReadsAs(Parse(a + [':'] + b), a, b)
  {
    SplitFields(a, b, ':');
    assert Parse(a + [':'] + b) == ReadFields(a, Some(b));
    ReadTwoFields(a, b);
  }

  lemma ReadTwoFields(a: string, b: string)
    ensures ReadsAs(ReadFields(a, Some(b)), a, b)
  {
    ParseLongTrim(a);
    var toks := Tokens(Trim(b));
    var r := ReadFields(a, Some(b));
    if ParseLong(a).None? {
      assert r == Failure(InvalidTarget);
    } else if SelectAll(toks, ParseLong).None? {
      assert r == Failure(InvalidOperand);
    } else {
      assert r == Success(Equation(ParseLong(a).value, SelectAll(toks, ParseLong).value));
    }
  }

  /** Whatever follows a second colon is ignored. */
  lemma SecondColonIgnored(a: string, b: string, c: string)
    requires ':' !in a && ':' !in b
    ensures Parse(a + [':'] + b + [':'] + c) == Parse(a + [':'] + b)
  {
    var parts := Split(a + [':'] + b + [':'] + c, ':');
    assert a + [':'] + b + [':'] + c == a + [':'] + (b + [':'] + c);
    SplitAround(a, b + [':'] + c, ':');
    SplitAround(b, c, ':');
    SplitNoSep(a, ':');
    SplitNoSep(b, ':');
    assert parts == [a, b] + Split(c, ':');
    SplitFields(a, b, ':');
  }

  /** A line without a colon is rejected: because the target is parsed first, a line
      that is not a number fails on the target, and one that is fails on the missing field. */
  lemma NoColonRejected(line: string)
    requires ':' !in line
    ensures Parse(line) == Failure(if ParseLong(line).Some? then MissingColon else InvalidTarget)
  {
    SplitNoSep(line, ':');
    ParseLongTrim(line);
  }

  /** "T:" (or a colon followed by spaces only) is an equation with no operands. */
  lemma NoOperands(a: string, b: string)
    requires ':' !in a && ParseLong(a).Some?
    requires forall k :: 0 <= k < |b| ==> b[k] == ' '
    ensures Parse(a + [':'] + b) == Success(Equation(ParseLong(a).value, []))
  {
    assert ':' !in b;
    ParseFields(a, b);
    TrimAllWhite(b);
  }

  /** Repeated spaces between operands count as one. */
  lemma RepeatedSpaces(x: string, y: string)
    ensures Tokens(x + [' ', ' '] + y) == Tokens(x + [' '] + y)
  {
    assert x + [' ', ' '] + y == x + [' '] + ([] + [' '] + y);
    SplitAround(x, [] + [' '] + y, ' ');
    SplitAround([], y, ' ');
    SplitAround(x, y, ' ');
    RemoveEmptyConcat(Split(x, ' '), [[]] + Split(y, ' '));
    RemoveEmptyConcat([[]], Split(y, ' '));
    RemoveEmptyConcat(Split(x, ' '), Split(y, ' '));
  }

  /** Each printed operand parses back to itself. */
  lemma ParseAllShows(ns: seq<int>)
    requires forall k :: 0 <= k < |ns| ==> InLong(ns[k])
    ensures SelectAll(Shows(ns), ParseLong) == Some(ns)
  {
    var ss := Shows(ns);
    forall k | 0 <= k < |ns| ensures ParseLong(ss[k]) == Some(ns[k]) {
      ParseShow(ns[k]);
    }
    var r := SelectAll(ss, ParseLong);
    assert r.Some?;
    assert forall k :: 0 <= k < |ns| ==> r.value[k] == ns[k];
    assert r.value == ns;
  }

  /** The operand field of a printed equation, a space and then the operands joined by
      single spaces, splits back into the printed operands. */
  lemma OperandTokens(ns: seq<int>)
    ensures Tokens(Trim([' '] + Join(Shows(ns), ' '))) == Shows(ns)
  {
    var ss := Shows(ns);
    var j := Join(ss, ' ');
    forall k | 0 <= k < |ss| ensures ' ' !in ss[k] && ss[k] != [] && Trimmed(ss[k]) {
      assert ss[k] == Show(ns[k]);
      ShowAlphabet(ns[k]);
    }
    JoinTrimmed(ss);
    TrimLeadingSpace(j);
    if ns == [] {
      assert Tokens(j) == [];
    } else {
      SplitJoin(ss, ' ');
      RemoveEmptyNoop(ss);
    }
  }

  /** Parsing the printed form of an equation (without the driver's "  ✓ " marker) gives
      the equation back. */
  lemma RoundTrip(eq: Equation)
    requires InRange(eq)
    ensures Parse(Format(eq)) == Success(eq)
  {
    var ss := Shows(eq.numbers);
    var j := Join(ss, ' ');
    var head := Show(eq.testValue);
    var tail := [' '] + j;
    assert Format(eq) == head + [':'] + tail;
    forall k | 0 <= k < |ss| ensures ':' !in ss[k] {
      assert ss[k] == Show(eq.numbers[k]);
      ShowAlphabet(eq.numbers[k]);
    }
    JoinAvoids(ss, ' ', ':');
    assert ':' !in head && ':' !in tail;
    SplitFields(head, tail, ':');
    TrimIdentity(head);
    ParseShow(eq.testValue);
    OperandTokens(eq.numbers);
    ParseAllShows(eq.numbers);
  }
}
