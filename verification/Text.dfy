/** The string operations the user header rests on: `split`, `join`, and decimal integers. */
module Text {
  import opened Wrappers

  /** Python's `s.split(c)` for a one-character separator: always at least one piece. */
  function Split(s: string, c: char): (pieces: seq<string>)
    ensures |pieces| >= 1
  {
    if s == "" then [""]
    else if s[0] == c then [""] + Split(s[1..], c)
    else
      var rest := Split(s[1..], c);
      [[s[0]] + rest[0]] + rest[1..]
  }

  function Join(pieces: seq<string>, c: char): string {
    if pieces == [] then ""
    else if |pieces| == 1 then pieces[0]
    else pieces[0] + [c] + Join(pieces[1..], c)
  }

  lemma {:induction false} SplitWhole(s: string, c: char)
    requires c !in s
    ensures Split(s, c) == [s]
  {
    if s != "" {
      SplitWhole(s[1..], c);
      assert s == [s[0]] + s[1..];
    }
  }

  lemma SplitStep(s: string, c: char, tail: string)
    requires s != "" && s[1..] == tail
    ensures var rest := Split(tail, c);
            Split(s, c) == if s[0] == c then [""] + rest else [[s[0]] + rest[0]] + rest[1..]
  {
  }

  /** Splitting and joining are inverse. */
  lemma {:induction false} JoinOfSplit(s: string, c: char)
    ensures Join(Split(s, c), c) == s
  {
    if s != "" {
      var rest := Split(s[1..], c);
      JoinOfSplit(s[1..], c);
      SplitStep(s, c, s[1..]);
      assert s == [s[0]] + s[1..];
      if s[0] == c {
        assert ([""] + rest)[1..] == rest;
      } else {
        assert ([[s[0]] + rest[0]] + rest[1..])[1..] == rest[1..];
      }
    }
  }

  lemma JoinThree(a: string, b: string, d: string, c: char)
    ensures Join([a, b, d], c) == a + [c] + (b + [c] + d)
  {
    assert [a, b, d][1..] == [b, d] && [b, d][1..] == [d];
    assert Join([b, d], c) == b + [c] + d;
  }

  lemma {:induction false} SplitAt(a: string, c: char, b: string)
    ensures Split(a + [c] + b, c) == Split(a, c) + Split(b, c)
  {
    hide Split;
    var s := a + [c] + b;
    if a == "" {
      SplitStep(s, c, b);
      SplitWhole(a, c);
    } else {
      var ra, rb := Split(a[1..], c), Split(b, c);
      SplitAt(a[1..], c, b);
      SplitStep(s, c, a[1..] + [c] + b);
      SplitStep(a, c, a[1..]);
      assert (ra + rb)[0] == ra[0] && (ra + rb)[1..] == ra[1..] + rb;
    }
  }

  lemma {:induction false} PiecesAreClean(s: string, c: char)
    ensures forall p :: p in Split(s, c) ==> c !in p
    ensures forall p, x :: p in Split(s, c) && x in p ==> x in s
  {
    if s != "" {
      PiecesAreClean(s[1..], c);
      var rest := Split(s[1..], c);
      assert rest[0] in rest;
      assert forall p :: p in rest[1..] ==> p in rest;
    }
  }

  // ----- decimal integers -----

  function DigitChar(d: nat): char
    requires d < 10
  {
    '0' + d as char
  }

  predicate IsDigit(c: char) {
    '0' <= c <= '9'
  }

  function Digits(n: nat): string {
    if n < 10 then [DigitChar(n)] else Digits(n / 10) + [DigitChar(n % 10)]
  }

  /** `str(n)` */
  function Decimal(n: int): string {
    if n < 0 then "-" + Digits(-n) else Digits(n)
  }

  predicate IsSpace(c: char) {
    c == ' ' || '\t' <= c <= '\r' || '\U{1C}' <= c <= '\U{1F}'
  }

  function Strip(s: string): string {
    if s != "" && IsSpace(s[0]) then Strip(s[1..])
    else if s != "" && IsSpace(s[|s| - 1]) then Strip(s[..|s| - 1])
    else s
  }

  /** Digits, with single underscores allowed between them. */
  function ParseDigits(s: string): Option<nat> {
    if s == "" || !IsDigit(s[|s| - 1]) then None
    else
      var d := (s[|s| - 1] - '0') as nat;
      var front := s[..|s| - 1];
      if front == "" then Some(d)
      else
        var high := ParseDigits(if front[|front| - 1] == '_' then front[..|front| - 1] else front);
        if high.None? then None else Some(10 * high.value + d)
  }

  /** `int(s)` on ASCII text; None is the ValueError. */
  function ParseInt(text: string): Option<int> {
    var s := Strip(text);
    if s != "" && (s[0] == '-' || s[0] == '+') then
      var n := ParseDigits(s[1..]);
      if n.None? then None else (var v: int := n.value; Some(if s[0] == '-' then -v else v))
    else
      var n := ParseDigits(s);
      if n.None? then None else Some(n.value)
  }

  lemma {:induction false} DigitsShape(n: nat)
    ensures Digits(n) != ""
    ensures forall i :: 0 <= i < |Digits(n)| ==> IsDigit(Digits(n)[i])
  {
    if n >= 10 {
      DigitsShape(n / 10);
    }
  }

  lemma {:induction false} ParseDigitsOfDigits(n: nat)
    ensures ParseDigits(Digits(n)) == Some(n)
  {
    DigitsShape(n);
    if n >= 10 {
      var s, front := Digits(n), Digits(n / 10);
      DigitsShape(n / 10);
      ParseDigitsOfDigits(n / 10);
      assert s[..|s| - 1] == front;
      assert IsDigit(front[|front| - 1]);
      assert s[|s| - 1] == DigitChar(n % 10);
    }
  }

  /** Digits at both ends, and nothing but digits and single underscores between. */
  ghost predicate DigitRuns(s: string) {
    && s != "" && '0' <= s[0] <= '9' && '0' <= s[|s| - 1] <= '9'
    && forall i :: 0 <= i < |s| ==> '0' <= s[i] <= '9' || (s[i] == '_' && i + 1 < |s| && '0' <= s[i + 1] <= '9')
  }

  /** Exactly which texts are read as a number. */
  lemma {:induction false} ParseDigitsIff(s: string)
    ensures ParseDigits(s).Some? <==> DigitRuns(s)
  {
    if |s| > 1 && IsDigit(s[|s| - 1]) {
      var front := s[..|s| - 1];
      var rest := if front[|front| - 1] == '_' then front[..|front| - 1] else front;
      ParseDigitsIff(rest);
      if DigitRuns(s) {
        assert rest != "" by {
          assert s[0] == front[0];
        }
        forall i | 0 <= i < |rest| ensures '0' <= rest[i] <= '9' || (rest[i] == '_' && i + 1 < |rest| && '0' <= rest[i + 1] <= '9') {
          assert rest[i] == s[i];
          assert i + 1 < |rest| ==> rest[i + 1] == s[i + 1];
        }
      }
      if DigitRuns(rest) {
        forall i | 0 <= i < |s| ensures '0' <= s[i] <= '9' || (s[i] == '_' && i + 1 < |s| && '0' <= s[i + 1] <= '9') {
          assert i < |rest| ==> s[i] == rest[i];
          assert i + 1 < |rest| ==> s[i + 1] == rest[i + 1];
        }
      }
    }
  }

  /** Surrounding spaces do not matter, and a sign applies to the digits after it. */
  lemma {:induction false} StripAround(s: string, c: char)
    requires IsSpace(c)
    ensures Strip([c] + s) == Strip(s) && Strip(s + [c]) == Strip(s)
  {
    assert ([c] + s)[1..] == s;
    assert (s + [c])[..|s|] == s;
    if s == "" {
      assert s + [c] == [c];
    } else if IsSpace(s[0]) {
      assert (s + [c])[1..] == s[1..] + [c];
      StripAround(s[1..], c);
    }
  }

  lemma SignsAndSpaces(s: string, n: nat, c: char)
    requires c == ' ' || c == '\t' || c == '\n' || c == '\r'
    ensures ParseInt([c] + s) == ParseInt(s) && ParseInt(s + [c]) == ParseInt(s)
    ensures ParseInt("+" + Digits(n)) == Some(n)
    ensures ParseInt("-" + Digits(n)).Some? && ParseInt("-" + Digits(n)).value + n == 0
  {
    StripAround(s, c);
    DigitsShape(n);
    ParseDigitsOfDigits(n);
    assert Strip("+" + Digits(n)) == "+" + Digits(n);
    assert Strip("-" + Digits(n)) == "-" + Digits(n);
    assert ("+" + Digits(n))[1..] == Digits(n) && ("-" + Digits(n))[1..] == Digits(n);
  }

  lemma ParseOfDecimal(n: int)
    ensures ParseInt(Decimal(n)) == Some(n)
  {
    var s := Decimal(n);
    DigitsShape(if n < 0 then -n else n);
    ParseDigitsOfDigits(if n < 0 then -n else n);
    assert !IsSpace(s[0]) && !IsSpace(s[|s| - 1]);
    assert Strip(s) == s;
    if n < 0 {
      assert s[1..] == Digits(-n);
    } else {
      assert IsDigit(s[0]);
    }
  }

  lemma DecimalIsPlain(n: int)
    ensures ';' !in Decimal(n) && '=' !in Decimal(n)
  {
    DigitsShape(if n < 0 then -n else n);
  }
}
