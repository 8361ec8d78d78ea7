/** The three `java.lang` string operations the class-list parameter goes
    through: `String.trim`, `String.split(",")` and `Integer.parseInt`. */
module JavaStrings {
  import opened Wrappers
  import opened JavaInts

  /** `trim` removes every character at or below U+0020 from both ends. */
  predicate IsTrimmable(c: char) {
    c <= ' '
  }

  /** Number of trimmable characters at the front of s. */
  function LeadingTrimmable(s: string): (n: nat)
    ensures n <= |s|
    ensures forall i | 0 <= i < n :: IsTrimmable(s[i])
    ensures n < |s| ==> !IsTrimmable(s[n])
  {
    if |s| == 0 || !IsTrimmable(s[0]) then 0 else 1 + LeadingTrimmable(s[1..])
  }

  /** Number of trimmable characters at the back of s. */
  function TrailingTrimmable(s: string): (n: nat)
    ensures n <= |s|
    ensures forall i | |s| - n <= i < |s| :: IsTrimmable(s[i])
    ensures n < |s| ==> !IsTrimmable(s[|s| - n - 1])
  {
    if |s| == 0 || !IsTrimmable(s[|s| - 1]) then 0 else 1 + TrailingTrimmable(s[..|s| - 1])
  }

  /** `String.trim`: the slice of s between its leading and its trailing
      run of trimmable characters. */
  function Trim(s: string): (r: string)
    ensures LeadingTrimmable(s) + |r| <= |s|
    ensures r == s[LeadingTrimmable(s)..LeadingTrimmable(s) + |r|]
    ensures forall i | 0 <= i < |s| && !(LeadingTrimmable(s) <= i < LeadingTrimmable(s) + |r|) ::
              IsTrimmable(s[i])
    ensures |r| > 0 ==> !IsTrimmable(r[0]) && !IsTrimmable(r[|r| - 1])
  {
    var rest := s[LeadingTrimmable(s)..];
    rest[..|rest| - TrailingTrimmable(rest)]
  }

  lemma TrimIdempotent(s: string)
    ensures Trim(Trim(s)) == Trim(s)
  {
  }

  /** The converse of Trim's contract: a core that neither starts nor ends
      with a trimmable character, padded with trimmable characters, trims to
      exactly that core. */
  lemma TrimExactly(pre: string, core: string, suf: string)
    requires forall i | 0 <= i < |pre| :: IsTrimmable(pre[i])
    requires forall i | 0 <= i < |suf| :: IsTrimmable(suf[i])
    requires |core| > 0 ==> !IsTrimmable(core[0]) && !IsTrimmable(core[|core| - 1])
    ensures Trim(pre + core + suf) == core
  {
    if |core| == 0 {
      assert pre + core + suf == pre + suf;
      TrimBlank(pre + suf);
    } else {
      TrimAroundCore(pre, core, suf);
    }
  }

  /** Text made only of trimmable characters trims to nothing. */
  lemma TrimBlank(s: string)
    requires forall i | 0 <= i < |s| :: IsTrimmable(s[i])
    ensures Trim(s) == ""
  {
  }

  lemma TrimAroundCore(pre: string, core: string, suf: string)
    requires forall i | 0 <= i < |pre| :: IsTrimmable(pre[i])
    requires forall i | 0 <= i < |suf| :: IsTrimmable(suf[i])
    requires |core| > 0 && !IsTrimmable(core[0]) && !IsTrimmable(core[|core| - 1])
    ensures Trim(pre + core + suf) == core
  {
    var s := pre + core + suf;
    var e := |pre| + |core|;
    forall i | 0 <= i < |pre| ensures IsTrimmable(s[i]) {
      assert s[i] == pre[i];
    }
    forall i | e <= i < |s| ensures IsTrimmable(s[i]) {
      assert s[i] == suf[i - e];
    }
    assert s[|pre|] == core[0] && s[e - 1] == core[|core| - 1];
    TrimWindow(s, |pre|, e);
    assert s[|pre|..e] == core;
  }

  /** Text whose non-blank ends are at a and b - 1 trims to s[a..b]. */
  lemma TrimWindow(s: string, a: nat, b: nat)
    requires a < b <= |s|
    requires forall i | 0 <= i < a :: IsTrimmable(s[i])
    requires forall i | b <= i < |s| :: IsTrimmable(s[i])
    requires !IsTrimmable(s[a]) && !IsTrimmable(s[b - 1])
    ensures Trim(s) == s[a..b]
  {
    var r := Trim(s);
    assert LeadingTrimmable(s) == a;
    assert a + |r| >= b;
    assert s[a + |r| - 1] == r[|r| - 1];
  }

  /** The pieces of s between commas, all of them, in order. */
  function SplitAll(s: string): (r: seq<string>)
    ensures |r| >= 1
    ensures forall i | 0 <= i < |r| :: ',' !in r[i]
  {
    if |s| == 0 then [""]
    else
      var rest := SplitAll(s[1..]);
      if s[0] == ',' then [""] + rest
      else [[s[0]] + rest[0]] + rest[1..]
  }

  /** The pieces rejoined with commas. */
  function Join(pieces: seq<string>): string
    requires |pieces| >= 1
  {
    if |pieces| == 1 then pieces[0] else pieces[0] + "," + Join(pieces[1..])
  }

  /** Splitting loses nothing: the pieces rejoined give back the string. */
  lemma {:induction false} JoinSplitAll(s: string)
    ensures Join(SplitAll(s)) == s
  {
    if |s| > 0 {
      var rest := SplitAll(s[1..]);
      JoinSplitAll(s[1..]);
      if s[0] == ',' {
        assert ([""] + rest)[1..] == rest;
      } else {
        var r := [[s[0]] + rest[0]] + rest[1..];
        if |rest| == 1 {
          assert r == [[s[0]] + s[1..]];
        } else {
          assert r[1..] == rest[1..];
          assert Join(rest) == rest[0] + "," + Join(rest[1..]);
        }
      }
    }
  }

  /** Splitting a comma-free-pieces join gives the pieces back. */
  lemma {:induction false} SplitAllJoin(pieces: seq<string>)
    requires |pieces| >= 1
    requires forall i | 0 <= i < |pieces| :: ',' !in pieces[i]
    ensures SplitAll(Join(pieces)) == pieces
  {
    if |pieces| == 1 {
      SplitAllOfPiece(pieces[0]);
    } else {
      SplitAllJoin(pieces[1..]);
      SplitAllPrefix(pieces[0], Join(pieces[1..]));
    }
  }

  lemma {:induction false} SplitAllOfPiece(p: string)
    requires ',' !in p
    ensures SplitAll(p) == [p]
  {
    if |p| > 0 {
      SplitAllOfPiece(p[1..]);
      assert [p[0]] + p[1..] == p;
    }
  }

  /** A comma-free piece followed by a comma becomes the first piece. */
  lemma {:induction false} SplitAllPrefix(p: string, tail: string)
    requires ',' !in p
    ensures SplitAll(p + "," + tail) == [p] + SplitAll(tail)
  {
    if |p| == 0 {
      assert p + "," + tail == [','] + tail;
      assert (p + "," + tail)[1..] == tail;
    } else {
      var s := p + "," + tail;
      assert s[1..] == p[1..] + "," + tail;
      SplitAllPrefix(p[1..], tail);
      assert [p[0]] + p[1..] == p;
    }
  }

  /** Drops the empty strings at the end. */
  function DropTrailingEmpty(pieces: seq<string>): (r: seq<string>)
    ensures |r| <= |pieces| && r == pieces[..|r|]
    ensures forall i | |r| <= i < |pieces| :: pieces[i] == ""
    ensures |r| > 0 ==> r[|r| - 1] != ""
  {
    if |pieces| == 0 || pieces[|pieces| - 1] != "" then pieces
    else DropTrailingEmpty(pieces[..|pieces| - 1])
  }

  /** `String.split(",")` with limit 0: a string without a comma is its own
      only piece; otherwise the pieces are those between commas with the
      trailing empty ones removed (so "," has no pieces at all). */
  function Split(s: string): (r: seq<string>)
    ensures forall i | 0 <= i < |r| :: ',' !in r[i]
    ensures ',' !in s ==> r == [s]
    ensures ',' in s ==> |r| <= |SplitAll(s)| && r == SplitAll(s)[..|r|]
    ensures ',' in s ==> forall i | |r| <= i < |SplitAll(s)| :: SplitAll(s)[i] == ""
    ensures ',' in s && |r| > 0 ==> r[|r| - 1] != ""
  {
    if ',' !in s then [s] else DropTrailingEmpty(SplitAll(s))
  }

  predicate IsDigit(c: char) {
    '0' <= c <= '9'
  }

  predicate AllDigits(s: string) {
    forall i | 0 <= i < |s| :: IsDigit(s[i])
  }

  /** The value of a string of decimal digits, most significant first. */
  function DigitsValue(s: string): nat
    requires AllDigits(s)
  {
    if |s| == 0 then 0
    else DigitsValue(s[..|s| - 1]) * 10 + (s[|s| - 1] - '0') as nat
  }

  /** `Integer.parseInt(s)` in radix 10: an optional '+' or '-', then at
      least one digit, and a value in the 32-bit range. None stands for the
      `NumberFormatException` it throws otherwise. */
  function ParseInt(s: string): (r: Option<int>)
    ensures r.Some? ==> Int32Min <= r.value <= Int32Max
    ensures r.Some? ==> |s| > 0
    ensures r.Some? ==> forall i | 0 <= i < |s| && (i > 0 || IsDigit(s[0])) :: IsDigit(s[i])
    ensures |s| > 0 && !IsDigit(s[0]) && s[0] != '+' && s[0] != '-' ==> r.None?
  {
    if |s| == 0 then None
    else
      var negative := s[0] == '-';
      var digits := if s[0] == '-' || s[0] == '+' then s[1..] else s;
      if |digits| == 0 || !AllDigits(digits) then None
      else
        var magnitude: int := DigitsValue(digits);
        var v := if negative then -magnitude else magnitude;
        if Int32Min <= v <= Int32Max then Some(v) else None
  }

  /** Decimal digits of n without leading zeros. */
  function NatDigits(n: nat): (r: string)
    ensures |r| >= 1 && AllDigits(r)
  {
    if n < 10 then [('0' as int + n) as char]
    else NatDigits(n / 10) + [('0' as int + n % 10) as char]
  }

  /** `Integer.toString(n)`. */
  function ToDecimal(n: int): string {
    if n < 0 then "-" + NatDigits(-n) else NatDigits(n)
  }

  lemma {:induction false} NatDigitsValue(n: nat)
    ensures DigitsValue(NatDigits(n)) == n
  {
    if n >= 10 {
      var d := NatDigits(n);
      NatDigitsValue(n / 10);
      assert d[..|d| - 1] == NatDigits(n / 10);
    }
  }

  /** `parseInt` reads back every 32-bit value it prints. */
  lemma ParseIntToDecimal(n: int)
    requires Int32Min <= n <= Int32Max
    ensures ParseInt(ToDecimal(n)) == Some(n)
  {
    var s := ToDecimal(n);
    if n < 0 {
      NatDigitsValue(-n);
      assert s[1..] == NatDigits(-n);
    } else {
      NatDigitsValue(n);
    }
  }

  /** A piece with a space inside is not a number: " 2" is rejected. */
  lemma SpacedPieceRejected()
    ensures ParseInt(" 2") == None
    ensures ParseInt("2 ") == None
  {
  }

  /** A value outside the 32-bit range is rejected even when well formed. */
  lemma ParseIntOverflow(n: int)
    requires n < Int32Min || n > Int32Max
    ensures ParseInt(ToDecimal(n)) == None
  {
    var s := ToDecimal(n);
    if n < 0 {
      NatDigitsValue(-n);
      assert s[0] == '-' && s[1..] == NatDigits(-n);
      assert DigitsValue(s[1..]) == -n;
    } else {
      NatDigitsValue(n);
      assert IsDigit(s[0]) && DigitsValue(s) == n;
    }
  }

  /** k zero digits. */
  function Zeros(k: nat): (r: string)
    ensures |r| == k && AllDigits(r)
  {
    seq(k, _ => '0')
  }

  /** The signs `parseInt` accepts in front of the digits. */
  predicate IsSign(sign: string) {
    sign == "" || sign == "+" || sign == "-"
  }

  lemma {:induction false} DigitsValueZeros(k: nat)
    ensures DigitsValue(Zeros(k)) == 0
  {
    if k > 0 {
      assert Zeros(k)[..k - 1] == Zeros(k - 1);
      DigitsValueZeros(k - 1);
    }
  }

  /** Leading zeros do not change the value of a digit string. */
  lemma {:induction false} DigitsValueAfterZeros(k: nat, d: string)
    requires AllDigits(d)
    ensures AllDigits(Zeros(k) + d) && DigitsValue(Zeros(k) + d) == DigitsValue(d)
  {
    var s := Zeros(k) + d;
    assert forall i | 0 <= i < |s| :: IsDigit(s[i]) by {
      forall i | 0 <= i < |s| ensures IsDigit(s[i]) {
        if i >= k { assert s[i] == d[i - k]; }
      }
    }
    if |d| == 0 {
      assert s == Zeros(k);
      DigitsValueZeros(k);
    } else {
      assert s[..|s| - 1] == Zeros(k) + d[..|d| - 1];
      assert s[|s| - 1] == d[|d| - 1];
      DigitsValueAfterZeros(k, d[..|d| - 1]);
    }
  }

  /** `parseInt` of a sign followed by digits: their value, negated after
      '-', when it lies in the 32-bit range. */
  lemma ParseIntSigned(sign: string, d: string)
    requires IsSign(sign) && |d| >= 1 && AllDigits(d)
    ensures var v: int := if sign == "-" then -(DigitsValue(d) as int) else DigitsValue(d);
            ParseInt(sign + d) == if Int32Min <= v <= Int32Max then Some(v) else None
  {
    if sign == "" {
      assert sign + d == d;
      ParseIntUnsigned(d);
    } else {
      ParseIntAfterSign(sign[0], d);
      assert sign + d == [sign[0]] + d;
    }
  }

  lemma ParseIntUnsigned(d: string)
    requires |d| >= 1 && AllDigits(d)
    ensures var v: int := DigitsValue(d);
            ParseInt(d) == if v <= Int32Max then Some(v) else None
  {
    assert IsDigit(d[0]);
  }

  lemma ParseIntAfterSign(c: char, d: string)
    requires (c == '-' || c == '+') && |d| >= 1 && AllDigits(d)
    ensures var v: int := if c == '-' then -(DigitsValue(d) as int) else DigitsValue(d);
            ParseInt([c] + d) == if Int32Min <= v <= Int32Max then Some(v) else None
  {
    if c == '-' {
      ParseIntMinus(d);
    } else {
      ParseIntPlus(d);
    }
  }

  lemma ParseIntMinus(d: string)
    requires |d| >= 1 && AllDigits(d)
    ensures var v: int := -(DigitsValue(d) as int);
            ParseInt(['-'] + d) == if Int32Min <= v <= Int32Max then Some(v) else None
  {
    var s := ['-'] + d;
    assert s[0] == '-' && s[1..] == d;
  }

  lemma ParseIntPlus(d: string)
    requires |d| >= 1 && AllDigits(d)
    ensures var v: int := DigitsValue(d);
            ParseInt(['+'] + d) == if v <= Int32Max then Some(v) else None
  {
    var s := ['+'] + d;
    assert s[0] == '+' && s[1..] == d;
  }

  /** Every string `parseInt` accepts is a sign followed by digits. */
  lemma ParseIntSplit(s: string) returns (sign: string, d: string)
    requires ParseInt(s).Some?
    ensures IsSign(sign) && |d| >= 1 && AllDigits(d) && s == sign + d
  {
    if s[0] == '-' || s[0] == '+' {
      sign, d := s[..1], s[1..];
      assert s == sign + d;
    } else {
      sign, d := "", s;
      assert s == sign + d;
    }
  }

  /** `parseInt` on every signed, zero-padded decimal: the magnitude, negated
      after a '-', accepted exactly when it lies in the 32-bit range. So
      "+3" and "03" read 3, and "-0" reads 0. */
  lemma ParseIntPadded(sign: string, k: nat, m: nat)
    requires IsSign(sign)
    ensures var v: int := if sign == "-" then -(m as int) else m;
            ParseInt(sign + Zeros(k) + NatDigits(m)) == if Int32Min <= v <= Int32Max then Some(v) else None
  {
    var d := Zeros(k) + NatDigits(m);
    ConcatAssoc(sign, Zeros(k), NatDigits(m));
    NatDigitsValue(m);
    DigitsValueAfterZeros(k, NatDigits(m));
    ParseIntSigned(sign, d);
  }

  /** A digit string is some zeros followed by the decimal digits of its
      value. */
  lemma {:induction false} DigitsCanonical(d: string) returns (k: nat)
    requires |d| >= 1 && AllDigits(d)
    ensures k < |d| && d == Zeros(k) + NatDigits(DigitsValue(d))
  {
    var p := d[..|d| - 1];
    var c := d[|d| - 1];
    var n := DigitsValue(d);
    if |p| == 0 {
      k := 0;
      assert d == [c];
    } else {
      var k' := DigitsCanonical(p);
      var v := DigitsValue(p);
      assert d == p + [c];
      if v == 0 {
        k := k' + 1;
        assert p == Zeros(k);
        assert NatDigits(n) == [c];
      } else {
        k := k';
        assert n / 10 == v && n % 10 == (c - '0') as nat;
        assert NatDigits(n) == NatDigits(v) + [c];
      }
    }
  }

  /** Conversely, every string `parseInt` accepts is a sign, some zeros and
      the decimal digits of the value's magnitude. */
  lemma ParseIntOnlyPadded(s: string) returns (sign: string, k: nat, m: nat)
    requires ParseInt(s).Some?
    ensures IsSign(sign) && s == sign + Zeros(k) + NatDigits(m)
    ensures ParseInt(s).value == if sign == "-" then -(m as int) else m
  {
    var d;
    sign, d := ParseIntSplit(s);
    k := DigitsCanonical(d);
    m := DigitsValue(d);
    ParseIntSigned(sign, d);
    ConcatAssoc(sign, Zeros(k), NatDigits(m));
  }

  lemma ConcatAssoc(a: string, b: string, c: string)
    ensures a + b + c == a + (b + c)
  {
  }

  /** A sign alone is not a number; a leading '+' is accepted. */
  lemma ParseIntSigns()
    ensures ParseInt("-") == None
    ensures ParseInt("+7") == Some(7)
  {
  }
}

/** The "Output classes" parameter turned into the class list. */
module ClassList {
  import opened Wrappers
  import opened JavaInts
  import opened Errors
  import opened JavaStrings

  /** Position of the first piece that is not a number, if any. */
  function FirstUnparsable(pieces: seq<string>): (r: Option<nat>)
    ensures r.None? <==> forall i | 0 <= i < |pieces| :: ParseInt(pieces[i]).Some?
    ensures r.Some? ==> r.value < |pieces| && ParseInt(pieces[r.value]).None?
    ensures r.Some? ==> forall i | 0 <= i < r.value :: ParseInt(pieces[i]).Some?
  {
    if |pieces| == 0 then None
    else if ParseInt(pieces[0]).None? then Some(0)
    else
      match FirstUnparsable(pieces[1..])
      case None => None
      case Some(k) => Some(k + 1)
  }

  /** Parses every piece in order; the first piece that is not a number
      raises the error. */
  function ParseAll(pieces: seq<string>): (r: Result<seq<int>, Error>)
    ensures r.Success? <==> FirstUnparsable(pieces).None?
    ensures r.Success? ==> |r.value| == |pieces|
    ensures r.Success? ==> forall i | 0 <= i < |pieces| :: r.value[i] == ParseInt(pieces[i]).value
    ensures r.Failure? ==> r.error == NumberFormat(pieces[FirstUnparsable(pieces).value])
  {
    if |pieces| == 0 then Success([])
    else
      match ParseInt(pieces[0])
      case None => Failure(NumberFormat(pieces[0]))
      case Some(k) =>
        match ParseAll(pieces[1..])
        case Failure(e) => Failure(e)
        case Success(ks) => Success([k] + ks)
  }

  /** The class list of one run: none when the subset option is off;
      otherwise the whole text trimmed, split on ',' and every piece parsed
      as a 32-bit integer. */
  function ParseClassList(subsetOfClasses: bool, text: string): (r: Result<Option<seq<int>>, Error>)
    ensures !subsetOfClasses ==> r == Success(None)
    ensures subsetOfClasses && r.Success? ==> r.value.Some?
    ensures subsetOfClasses ==> var pieces := Split(Trim(text));
              && (r.Success? <==> forall i | 0 <= i < |pieces| :: ParseInt(pieces[i]).Some?)
              && (r.Success? ==> |r.value.value| == |pieces|
                                 && forall i | 0 <= i < |pieces| :: r.value.value[i] == ParseInt(pieces[i]).value)
  {
    if !subsetOfClasses then Success(None)
    else
      match ParseAll(Split(Trim(text)))
      case Failure(e) => Failure(e)
      case Success(l) => Success(Some(l))
  }

  /** ParseClassList in terms of the pieces it parses. */
  lemma ParseClassListOfPieces(text: string, pieces: seq<string>)
    requires Split(Trim(text)) == pieces
    ensures ParseAll(pieces).Success? ==> ParseClassList(true, text) == Success(Some(ParseAll(pieces).value))
    ensures ParseAll(pieces).Failure? ==> ParseClassList(true, text) == Failure(ParseAll(pieces).error)
  {
  }

  /** `Integer.toString` of every class, in order. */
  function Decimals(l: seq<int>): (r: seq<string>)
    ensures |r| == |l|
    ensures forall i | 0 <= i < |l| :: r[i] == ToDecimal(l[i])
  {
    seq(|l|, i requires 0 <= i < |l| => ToDecimal(l[i]))
  }

  /** A printed integer is non-empty, has no comma, starts with '-' or a
      digit and ends with a digit. */
  lemma ToDecimalShape(n: int)
    ensures var d := ToDecimal(n);
            && |d| >= 1 && ',' !in d
            && !IsTrimmable(d[0]) && !IsTrimmable(d[|d| - 1])
  {
    var d := ToDecimal(n);
    assert AllDigits(NatDigits(if n < 0 then -n else n));
    assert forall i | 0 <= i < |d| :: d[i] == '-' || IsDigit(d[i]);
  }

  /** The joined text starts with the first piece's first character and ends
      with the last piece's last character. */
  lemma {:induction false} JoinEnds(pieces: seq<string>)
    requires |pieces| >= 1 && forall i | 0 <= i < |pieces| :: |pieces[i]| >= 1
    ensures var s := Join(pieces);
            var last := pieces[|pieces| - 1];
            && |s| >= 1 && s[0] == pieces[0][0] && s[|s| - 1] == last[|last| - 1]
  {
    if |pieces| > 1 {
      JoinEnds(pieces[1..]);
    }
  }

  /** Text with non-blank ends trims to itself. */
  lemma TrimNonBlank(text: string)
    requires |text| >= 1 && !IsTrimmable(text[0]) && !IsTrimmable(text[|text| - 1])
    ensures Trim(text) == text
  {
    TrimExactly("", text, "");
    assert "" + text + "" == text;
  }

  /** Comma-free pieces joined with commas split back into the pieces when
      the last one is not empty. */
  lemma SplitJoin(pieces: seq<string>)
    requires |pieces| >= 1 && pieces[|pieces| - 1] != ""
    requires forall i | 0 <= i < |pieces| :: ',' !in pieces[i]
    ensures Split(Join(pieces)) == pieces
  {
    var text := Join(pieces);
    SplitAllJoin(pieces);
    if |pieces| > 1 {
      assert text[|pieces[0]|] == ',';
      assert DropTrailingEmpty(pieces) == pieces;
    }
  }

  /** Comma-free pieces with non-blank ends, joined with commas, survive the
      trim and come back from the split unchanged. */
  lemma JoinTrimSplit(pieces: seq<string>)
    requires |pieces| >= 1
    requires forall i | 0 <= i < |pieces| :: |pieces[i]| >= 1 && ',' !in pieces[i]
    requires !IsTrimmable(pieces[0][0])
    requires !IsTrimmable(pieces[|pieces| - 1][|pieces[|pieces| - 1]| - 1])
    ensures Split(Trim(Join(pieces))) == pieces
  {
    JoinEnds(pieces);
    TrimNonBlank(Join(pieces));
    SplitJoin(pieces);
  }

  lemma DecimalsShape(l: seq<int>)
    ensures forall i | 0 <= i < |l| ::
              && |Decimals(l)[i]| >= 1 && ',' !in Decimals(l)[i]
              && !IsTrimmable(Decimals(l)[i][0]) && !IsTrimmable(Decimals(l)[i][|Decimals(l)[i]| - 1])
  {
    forall i | 0 <= i < |l|
      ensures && |Decimals(l)[i]| >= 1 && ',' !in Decimals(l)[i]
              && !IsTrimmable(Decimals(l)[i][0]) && !IsTrimmable(Decimals(l)[i][|Decimals(l)[i]| - 1])
    {
      ToDecimalShape(l[i]);
    }
  }

  /** Every printed 32-bit class parses back to itself. */
  lemma ParseAllDecimals(l: seq<int>)
    requires forall i | 0 <= i < |l| :: Int32Min <= l[i] <= Int32Max
    ensures ParseAll(Decimals(l)) == Success(l)
  {
    var pieces := Decimals(l);
    forall i | 0 <= i < |l| ensures ParseInt(pieces[i]) == Some(l[i]) {
      ParseIntToDecimal(l[i]);
    }
    assert FirstUnparsable(pieces).None?;
    assert ParseAll(pieces).value == l;
  }

  /** Printing a non-empty list of 32-bit classes with commas between them
      and parsing the text back gives the list. */
  lemma ParseClassListOfDecimals(l: seq<int>)
    requires |l| >= 1
    requires forall i | 0 <= i < |l| :: Int32Min <= l[i] <= Int32Max
    ensures ParseClassList(true, Join(Decimals(l))) == Success(Some(l))
  {
    DecimalsShape(l);
    JoinTrimSplit(Decimals(l));
    ParseAllDecimals(l);
    ParseClassListOfPieces(Join(Decimals(l)), Decimals(l));
  }

  lemma SplitThreeOneThree()
    ensures Split(Trim(" 3,1,3 ")) == ["3", "1", "3"]
  {
    TrimExactly(" ", "3,1,3", " ");
    assert " " + "3,1,3" + " " == " 3,1,3 ";
    SplitThreeCommaOne();
  }

  lemma SplitThreeCommaOne()
    ensures Split("3,1,3") == ["3", "1", "3"]
  {
    var pieces := ["3", "1", "3"];
    SplitAllJoin(pieces);
    assert pieces[1..] == ["1", "3"] && pieces[1..][1..] == ["3"] && pieces[1..][1..][1..] == [];
    assert Join(pieces) == "3,1,3";
    assert SplitAll("3,1,3") == pieces;
    assert "3,1,3"[1] == ',';
  }

  lemma ParseThreeOneThree()
    ensures ParseAll(["3", "1", "3"]) == Success([3, 1, 3])
  {
    var pieces := ["3", "1", "3"];
    assert "3"[..0] == "" && "1"[..0] == "";
    assert ParseInt("3") == Some(3) && ParseInt("1") == Some(1);
    assert FirstUnparsable(pieces).None?;
    var r := ParseAll(pieces).value;
    assert r[0] == 3 && r[1] == 1 && r[2] == 3;
    assert r == [3, 1, 3];
  }

  /** Surrounding blanks are trimmed away, order is kept and duplicates stay. */
  lemma ParseClassListExample()
    ensures ParseClassList(true, " 3,1,3 ") == Success(Some([3, 1, 3]))
  {
    SplitThreeOneThree();
    ParseThreeOneThree();
    ParseClassListOfPieces(" 3,1,3 ", ["3", "1", "3"]);
  }

  lemma SplitInnerSpace()
    ensures Split(Trim("1, 2")) == ["1", " 2"]
  {
    TrimExactly("", "1, 2", "");
    assert "" + "1, 2" + "" == "1, 2";
    SplitOneSpaceTwo();
  }

  lemma SplitOneSpaceTwo()
    ensures Split("1, 2") == ["1", " 2"]
  {
    var pieces := ["1", " 2"];
    SplitAllJoin(pieces);
    assert pieces[1..] == [" 2"] && pieces[1..][1..] == [];
    assert Join(pieces) == "1, 2";
    assert SplitAll("1, 2") == pieces;
    assert "1, 2"[1] == ',';
  }

  lemma ParseInnerSpace()
    ensures ParseAll(["1", " 2"]) == Failure(NumberFormat(" 2"))
  {
  }

  /** Inner blanks are not trimmed: "1, 2" fails on the piece " 2". */
  lemma InnerSpaceRejected()
    ensures ParseClassList(true, "1, 2") == Failure(NumberFormat(" 2"))
  {
    SplitInnerSpace();
    ParseInnerSpace();
    ParseClassListOfPieces("1, 2", ["1", " 2"]);
  }

  /** A lone comma splits into no pieces: the class list is empty. */
  lemma LoneCommaGivesEmptyList()
    ensures ParseClassList(true, ",") == Success(Some([]))
  {
  }

  /** An empty text has one empty piece, which is not a number. */
  lemma EmptyTextRejected()
    ensures ParseClassList(true, "  ") == Failure(NumberFormat(""))
  {
  }
}
