/**
 * The parts of java.lang.String and java.lang.Integer that the converters rely on:
 * ASCII decimal digits, Integer.parseInt, Integer.toString (%d), String.split with a
 * literal separator, String.toLowerCase on ASCII and String.startsWith.
 */
module JavaText {
  import opened Wrappers

  predicate IsDigit(c: char) { '0' <= c <= '9' }

  predicate AllDigits(s: string) { forall i | 0 <= i < |s| :: IsDigit(s[i]) }

  /** No character of s equals c. */
  predicate Lacks(s: string, c: char) { forall i | 0 <= i < |s| :: s[i] != c }

  function DigitValue(c: char): (d: nat)
    requires IsDigit(c)
    ensures d < 10
  {
    (c as int) - ('0' as int)
  }

  function DigitChar(d: nat): (c: char)
    requires d < 10
    ensures IsDigit(c) && DigitValue(c) == d
  {
    (('0' as int) + d) as char
  }

  /** The number written by a string of decimal digits, read left to right. */
  function DigitsValue(s: string): nat
    requires AllDigits(s)
    decreases |s|
  {
    if |s| == 0 then 0 else 10 * DigitsValue(s[..|s| - 1]) + DigitValue(s[|s| - 1])
  }

  /** The text Java's %d (and StringBuilder.append(int)) writes for a non-negative int. */
  function Decimal(n: nat): (s: string)
    ensures |s| > 0 && AllDigits(s)
  {
    if n < 10 then [DigitChar(n)] else Decimal(n / 10) + [DigitChar(n % 10)]
  }

  /** Reading back the decimal text of n gives n. */
  lemma {:induction false} DigitsValueOfDecimal(n: nat)
    ensures DigitsValue(Decimal(n)) == n
  {
    var s := Decimal(n);
    if n >= 10 {
      assert s[..|s| - 1] == Decimal(n / 10);
      DigitsValueOfDecimal(n / 10);
    }
  }

  /** The text %d writes for any int: a minus sign before the digits of a negative value. */
  function IntText(n: int): (s: string)
    ensures |s| > 0
    ensures forall i | 0 <= i < |s| :: IsDigit(s[i]) || (i == 0 && s[i] == '-')
    ensures 0 <= n ==> s == Decimal(n)
  {
    if n < 0 then "-" + Decimal(-n) else Decimal(n)
  }

  const INT_MIN: int := -0x8000_0000
  const INT_MAX: int := 0x7fff_ffff

  /**
   * Integer.parseInt(s): an optional '+' or '-', then at least one digit, and the value
   * must fit in a 32-bit int; None stands for the NumberFormatException it throws otherwise.
   */
  function ParseInt(s: string): (r: Option<int>)
    ensures r.Some? ==> INT_MIN <= r.value <= INT_MAX
    ensures r.Some? ==> |s| > 0 && (s[0] != '-' ==> 0 <= r.value)
  {
    if |s| == 0 then None
    else
      var digits := if s[0] == '-' || s[0] == '+' then s[1..] else s;
      if |digits| == 0 || !AllDigits(digits) then None
      else
        var v: int := if s[0] == '-' then -(DigitsValue(digits) as int) else DigitsValue(digits);
        if INT_MIN <= v <= INT_MAX then Some(v) else None
  }

  /** Integer.parseInt reads back what %d wrote. */
  lemma ParseIntOfDecimal(n: nat)
    requires n <= INT_MAX
    ensures ParseInt(Decimal(n)) == Some(n)
  {
    DigitsValueOfDecimal(n);
  }

  /**
   * The pieces of s between the non-overlapping occurrences of sep, scanned from the
   * left, keeping every empty piece.
   */
  function Split(s: string, sep: string): (pieces: seq<string>)
    requires |sep| > 0
    ensures |pieces| > 0
    decreases |s|
  {
    if |s| < |sep| then [s]
    else if s[..|sep|] == sep then [""] + Split(s[|sep|..], sep)
    else
      var rest := Split(s[1..], sep);
      [[s[0]] + rest[0]] + rest[1..]
  }

  function StripTrailingEmpty(pieces: seq<string>): (r: seq<string>)
    ensures |r| <= |pieces|
    ensures r == pieces[..|r|]
    ensures |r| > 0 ==> r[|r| - 1] != ""
    ensures forall i | |r| <= i < |pieces| :: pieces[i] == ""
  {
    if |pieces| == 0 then []
    else if pieces[|pieces| - 1] == "" then StripTrailingEmpty(pieces[..|pieces| - 1])
    else pieces
  }

  /**
   * String.split with a separator that has no regular-expression meaning: no match gives
   * the string itself, otherwise the pieces with trailing empty pieces removed.
   */
  function JavaSplit(s: string, sep: string): seq<string>
    requires |sep| > 0
  {
    var pieces := Split(s, sep);
    if |pieces| == 1 then pieces else StripTrailingEmpty(pieces)
  }

  /** A string that cannot hold the separator's first character is a single piece. */
  lemma {:induction false} SplitWithout(a: string, sep: string)
    requires |sep| > 0 && Lacks(a, sep[0])
    ensures Split(a, sep) == [a]
    decreases |a|
  {
    if |a| >= |sep| {
      assert a[..|sep|][0] != sep[0];
      SplitWithout(a[1..], sep);
      assert [a[0]] + a[1..] == a;
    }
  }

  /** A first piece free of the separator's first character is cut off at the separator. */
  lemma {:induction false} SplitAt(a: string, sep: string, b: string)
    requires |sep| > 0 && Lacks(a, sep[0])
    ensures Split(a + sep + b, sep) == [a] + Split(b, sep)
    decreases |a|
  {
    var s := a + sep + b;
    if |a| == 0 {
      assert s == sep + b;
      assert s[..|sep|] == sep;
      assert s[|sep|..] == b;
    } else {
      assert s[..|sep|][0] == a[0] != sep[0];
      assert s[1..] == a[1..] + sep + b;
      SplitAt(a[1..], sep, b);
      assert [a[0]] + a[1..] == a;
    }
  }

  /** Java's split keeps every piece when the last one is not empty. */
  lemma JavaSplitKeepsPieces(s: string, sep: string)
    requires |sep| > 0
    requires Split(s, sep)[|Split(s, sep)| - 1] != ""
    ensures JavaSplit(s, sep) == Split(s, sep)
  {
  }

  /** String.toLowerCase restricted to ASCII letters. */
  function LowerAscii(c: char): char
  {
    if 'A' <= c <= 'Z' then ((c as int) - ('A' as int) + ('a' as int)) as char else c
  }

  function ToLowerCase(s: string): (r: string)
    ensures |r| == |s| && forall i | 0 <= i < |s| :: r[i] == LowerAscii(s[i])
  {
    seq(|s|, i requires 0 <= i < |s| => LowerAscii(s[i]))
  }

  predicate StartsWith(s: string, prefix: string)
  {
    |prefix| <= |s| && s[..|prefix|] == prefix
  }

  /** Strings joined with a separator between neighbours, as a StringBuilder loop appends them. */
  function Join(parts: seq<string>, sep: string): string
  {
    if |parts| == 0 then ""
    else if |parts| == 1 then parts[0]
    else parts[0] + sep + Join(parts[1..], sep)
  }

  /** Putting the separator back between the pieces gives the string that was split. */
  lemma {:induction false} JoinOfSplit(s: string, sep: string)
    requires |sep| > 0
    ensures Join(Split(s, sep), sep) == s
    decreases |s|
  {
    if |s| < |sep| {
    } else if s[..|sep|] == sep {
      var rest := s[|sep|..];
      JoinOfSplit(rest, sep);
      assert ([""] + Split(rest, sep))[1..] == Split(rest, sep);
      assert s == sep + rest;
    } else {
      var rest := Split(s[1..], sep);
      JoinOfSplit(s[1..], sep);
      var pieces := [[s[0]] + rest[0]] + rest[1..];
      assert pieces[1..] == rest[1..];
      assert s == [s[0]] + s[1..];
    }
  }

  lemma JoinTwo(parts: seq<string>, sep: string)
    requires |parts| == 2
    ensures Join(parts, sep) == parts[0] + sep + parts[1]
  {
    assert Join(parts[1..], sep) == parts[1];
  }

  lemma JoinFour(parts: seq<string>, sep: string)
    requires |parts| == 4
    ensures Join(parts, sep) == parts[0] + sep + (parts[1] + sep + (parts[2] + sep + parts[3]))
  {
    var a := parts[1..];
    var b := a[1..];
    JoinTwo(b, sep);
    assert Join(a, sep) == a[0] + sep + Join(b, sep);
  }

  lemma {:induction false} JoinSnoc(parts: seq<string>, x: string, sep: string)
    requires |parts| > 0
    ensures Join(parts + [x], sep) == Join(parts, sep) + sep + x
  {
    if |parts| > 1 {
      assert (parts + [x])[1..] == parts[1..] + [x];
      JoinSnoc(parts[1..], x, sep);
    } else {
      assert (parts + [x])[1..] == [x];
    }
  }

  /** Joining two non-empty runs is joining each and putting one separator between. */
  lemma {:induction false} JoinAppend(a: seq<string>, b: seq<string>, sep: string)
    requires |a| > 0 && |b| > 0
    ensures Join(a + b, sep) == Join(a, sep) + sep + Join(b, sep)
  {
    if |a| > 1 {
      assert (a + b)[1..] == a[1..] + b;
      JoinAppend(a[1..], b, sep);
    } else {
      assert (a + b)[1..] == b;
    }
  }

  /** Splitting pieces joined with a separator they do not hold gives the pieces back. */
  lemma {:induction false} SplitOfJoin(parts: seq<string>, sep: string)
    requires |sep| > 0 && |parts| > 0
    requires forall i | 0 <= i < |parts| :: Lacks(parts[i], sep[0])
    ensures Split(Join(parts, sep), sep) == parts
    decreases |parts|
  {
    if |parts| == 1 {
      SplitWithout(parts[0], sep);
    } else {
      var rest := parts[1..];
      assert forall i | 0 <= i < |rest| :: rest[i] == parts[i + 1];
      SplitOfJoin(rest, sep);
      SplitAt(parts[0], sep, Join(rest, sep));
      assert [parts[0]] + rest == parts;
    }
  }

  /** Decimal text has no character other than digits. */
  lemma DigitsLack(s: string, c: char)
    requires AllDigits(s) && !IsDigit(c)
    ensures Lacks(s, c)
  {
  }

  lemma LacksAppend(a: string, b: string, d: string, c: char)
    requires Lacks(a, c) && Lacks(b, c) && Lacks(d, c)
    ensures Lacks(a + b + d, c)
  {
    var s := a + b + d;
    forall i | 0 <= i < |s| ensures s[i] != c {
      if i < |a| {
        assert s[i] == a[i];
      } else if i < |a| + |b| {
        assert s[i] == b[i - |a|];
      } else {
        assert s[i] == d[i - |a| - |b|];
      }
    }
  }

  lemma FourPieces(a: seq<string>, x0: string, x1: string, x2: string, x3: string)
    requires |a| == 4 && a[0] == x0 && a[1] == x1 && a[2] == x2 && a[3] == x3
    ensures a == [x0] + ([x1] + ([x2] + [x3]))
  {
  }

  lemma CutAt(s: string, i: nat)
    requires i <= |s|
    ensures s == s[..i] + s[i..]
  {
  }

  lemma Regroup(a: string, b: string, c: string, d: string)
    ensures a + b + c + d == a + (b + (c + d))
  {
  }

  lemma Reassociate(a: string, b: string, c: string, d: string)
    ensures a + b + c == a + (b + c)
    ensures a + b + c + d == a + (b + c + d)
  {
  }

  /** Taking one more element of a sequence appends that element. */
  lemma TakeOneMore<T>(s: seq<T>, i: nat)
    requires i < |s|
    ensures s[..i + 1] == s[..i] + [s[i]]
  {
  }

  lemma TakeAll<T>(s: seq<T>)
    ensures s[..|s|] == s
  {
  }

  lemma AppendOne<T>(a: seq<T>, b: seq<T>, x: T)
    ensures a + b + [x] == a + (b + [x])
  {
  }

  /** The first n characters are the first i of them followed by the next n - i. */
  lemma PrefixSplit(s: string, i: nat, n: nat)
    requires i <= n <= |s|
    ensures s[..n] == s[..i] + s[i..][..n - i]
  {
  }

  /** Cutting a string at two points and joining the pieces gives it back. */
  lemma Reassemble(s: string, i: nat, j: nat)
    requires i <= j <= |s|
    ensures s == s[..i] + s[i..][..j - i] + s[j..]
  {
    PrefixSplit(s, i, j);
  }
}
