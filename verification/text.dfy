/** String helpers that mirror the few Python `str` operations the jobs use:
    `replace(c, "")`, slicing `[-2:]`, `split(".")`, ASCII `upper()`, and `str()`
    of integers together with `strftime`-style zero padding. */
module Text {

  /** Every character of `s` that is not in `cs`, in order: the effect of
      calling `s.replace(c, "")` once for each `c` in `cs`. */
  function Delete(s: string, cs: set<char>): string
    decreases |s|
  {
    if |s| == 0 then "" else (if s[0] in cs then "" else [s[0]]) + Delete(s[1..], cs)
  }

  /** No character of `cs` survives, and the text does not grow. */
  lemma {:induction false} DeleteRemoves(s: string, cs: set<char>)
    ensures forall i :: 0 <= i < |Delete(s, cs)| ==> Delete(s, cs)[i] !in cs
    ensures |Delete(s, cs)| <= |s|
    decreases |s|
  {
    if |s| > 0 {
      DeleteRemoves(s[1..], cs);
    }
  }

  /** Deleting removes nothing but the characters of `cs`: every other character
      keeps its number of occurrences (tabs, for instance, all stay). */
  lemma {:induction false} DeleteKeepsOthers(s: string, cs: set<char>, x: char)
    requires x !in cs
    ensures multiset(Delete(s, cs))[x] == multiset(s)[x]
    decreases |s|
  {
    if |s| > 0 {
      DeleteKeepsOthers(s[1..], cs, x);
      assert s == [s[0]] + s[1..];
    }
  }

  /** Deleting distributes over concatenation. */
  lemma {:induction false} DeleteAppend(a: string, b: string, cs: set<char>)
    ensures Delete(a + b, cs) == Delete(a, cs) + Delete(b, cs)
    decreases |a|
  {
    if |a| == 0 {
      assert a + b == b;
    } else {
      var h := if a[0] in cs then "" else [a[0]];
      assert (a + b)[1..] == a[1..] + b;
      assert (a + b)[0] == a[0];
      assert Delete(a + b, cs) == h + Delete(a[1..] + b, cs);
      assert Delete(a, cs) == h + Delete(a[1..], cs);
      DeleteAppend(a[1..], b, cs);
    }
  }

  /** A string without characters of `cs` is left as it is. */
  lemma {:induction false} DeleteNoOp(s: string, cs: set<char>)
    requires forall i :: 0 <= i < |s| ==> s[i] !in cs
    ensures Delete(s, cs) == s
    decreases |s|
  {
    if |s| > 0 {
      DeleteNoOp(s[1..], cs);
      assert s == [s[0]] + s[1..];
    }
  }

  /** A string made only of characters of `cs` disappears entirely. */
  lemma {:induction false} DeleteAll(s: string, cs: set<char>)
    requires forall i :: 0 <= i < |s| ==> s[i] in cs
    ensures Delete(s, cs) == ""
    decreases |s|
  {
    if |s| > 0 {
      DeleteAll(s[1..], cs);
    }
  }

  /** Deleting twice deletes nothing more. */
  lemma DeleteIdempotent(s: string, cs: set<char>)
    ensures Delete(Delete(s, cs), cs) == Delete(s, cs)
  {
    DeleteRemoves(s, cs);
    DeleteNoOp(Delete(s, cs), cs);
  }

  /** Two successive passes equal one pass over the characters of both. */
  lemma {:induction false} DeleteTwice(s: string, a: set<char>, b: set<char>)
    ensures Delete(Delete(s, a), b) == Delete(s, a + b)
    decreases |s|
  {
    if |s| > 0 {
      DeleteTwice(s[1..], a, b);
      var head := if s[0] in a then "" else [s[0]];
      assert Delete(s, a) == head + Delete(s[1..], a);
      DeleteAppend(head, Delete(s[1..], a), b);
    }
  }

  /** Python's `s[-2:]`: the last two characters, or the whole string when shorter. */
  function LastTwo(s: string): (r: string)
    ensures |r| == if |s| < 2 then |s| else 2
    ensures s == s[..|s| - |r|] + r
  {
    if |s| < 2 then s else s[|s| - 2..]
  }

  /** Python's `s.split(sep)` for a one-character separator. */
  function Split(s: string, sep: char): (parts: seq<string>)
    ensures |parts| >= 1
    ensures forall i :: 0 <= i < |parts| ==> sep !in parts[i]
    decreases |s|
  {
    if |s| == 0 then [""]
    else
      var rest := Split(s[1..], sep);
      if s[0] == sep then [""] + rest
      else [[s[0]] + rest[0]] + rest[1..]
  }

  /** Python's `sep.join(parts)`. */
  function Join(parts: seq<string>, sep: char): string
    requires |parts| >= 1
    decreases |parts|
  {
    if |parts| == 1 then parts[0] else parts[0] + [sep] + Join(parts[1..], sep)
  }

  /** Splitting then joining restores the string. */
  lemma {:induction false} JoinSplit(s: string, sep: char)
    ensures Join(Split(s, sep), sep) == s
    decreases |s|
  {
    if |s| > 0 {
      JoinSplit(s[1..], sep);
      var rest := Split(s[1..], sep);
      if s[0] == sep {
        assert Split(s, sep) == [""] + rest;
        assert ([""] + rest)[1..] == rest;
        assert s == [sep] + s[1..];
      } else {
        var parts := Split(s, sep);
        assert parts == [[s[0]] + rest[0]] + rest[1..];
        if |rest| == 1 {
          assert s == [s[0]] + s[1..];
        } else {
          assert parts[1..] == rest[1..];
          assert Join(rest, sep) == rest[0] + [sep] + Join(rest[1..], sep);
          assert s == [s[0]] + s[1..];
        }
      }
    }
  }

  /** Joining separator-free parts then splitting gives the parts back. */
  lemma {:induction false} SplitJoin(parts: seq<string>, sep: char)
    requires |parts| >= 1
    requires forall i :: 0 <= i < |parts| ==> sep !in parts[i]
    ensures Split(Join(parts, sep), sep) == parts
    decreases |parts|, |parts[0]|
  {
    var p := parts[0];
    if |p| == 0 {
      if |parts| > 1 {
        var tail := Join(parts[1..], sep);
        assert Join(parts, sep) == [sep] + tail;
        assert ([sep] + tail)[1..] == tail;
        SplitJoin(parts[1..], sep);
        assert parts == [""] + parts[1..];
      }
    } else {
      var shorter := [p[1..]] + parts[1..];
      SeparatorFreeAfterDrop(parts, sep);
      SplitJoin(shorter, sep);
      JoinDropFirst(parts, sep);
      var whole := Join(parts, sep);
      assert whole[0] == p[0] && whole[1..] == Join(shorter, sep);
      assert shorter[1..] == parts[1..];
      assert [p[0]] + p[1..] == p;
      assert parts == [p] + parts[1..];
    }
  }

  /** Dropping the first character of the first part keeps every part free of the
      separator. */
  lemma SeparatorFreeAfterDrop(parts: seq<string>, sep: char)
    requires |parts| >= 1 && |parts[0]| > 0
    requires forall i :: 0 <= i < |parts| ==> sep !in parts[i]
    ensures var shorter := [parts[0][1..]] + parts[1..];
            |shorter| == |parts| && forall i :: 0 <= i < |shorter| ==> sep !in shorter[i]
  {
    var shorter := [parts[0][1..]] + parts[1..];
    forall i | 0 <= i < |shorter| ensures sep !in shorter[i] {
      if i == 0 {
        assert forall j :: 0 <= j < |parts[0][1..]| ==> parts[0][1..][j] == parts[0][j + 1];
      } else {
        assert shorter[i] == parts[i];
      }
    }
  }

  /** The joined text starts with the first character of the first part, followed
      by the join with that character removed. */
  lemma JoinDropFirst(parts: seq<string>, sep: char)
    requires |parts| >= 1 && |parts[0]| > 0
    ensures var whole := Join(parts, sep);
            |whole| > 0 && whole[0] == parts[0][0] && whole[1..] == Join([parts[0][1..]] + parts[1..], sep)
  {
    var p := parts[0];
    var shorter := [p[1..]] + parts[1..];
    assert shorter[0] == p[1..] && shorter[1..] == parts[1..];
    if |parts| > 1 {
      var r := [sep] + Join(parts[1..], sep);
      assert Join(parts, sep) == p + r;
      assert Join(shorter, sep) == p[1..] + r;
      assert (p + r)[1..] == p[1..] + r;
    }
  }


  /** `Join` of two part lists is the two joins around one separator. */
  lemma {:induction false} JoinAppend(p: seq<string>, q: seq<string>, sep: char)
    requires |p| >= 1 && |q| >= 1
    ensures Join(p + q, sep) == Join(p, sep) + [sep] + Join(q, sep)
    decreases |p|
  {
    if |p| == 1 {
      assert (p + q)[1..] == q;
    } else {
      assert (p + q)[1..] == p[1..] + q;
      JoinAppend(p[1..], q, sep);
    }
  }

  /** Python's `c.upper()` restricted to ASCII letters. */
  function UpperChar(c: char): char {
    if 'a' <= c <= 'z' then (c as int - 'a' as int + 'A' as int) as char else c
  }

  /** Python's `s.upper()` on ASCII text. */
  function Upper(s: string): (r: string)
    ensures |r| == |s|
    ensures forall i :: 0 <= i < |s| ==> r[i] == UpperChar(s[i])
  {
    seq(|s|, i requires 0 <= i < |s| => UpperChar(s[i]))
  }

  /** Upper-casing twice changes nothing more, and leaves no lower-case ASCII letter. */
  lemma UpperIdempotent(s: string)
    ensures Upper(Upper(s)) == Upper(s)
    ensures forall i :: 0 <= i < |s| ==> !('a' <= Upper(s)[i] <= 'z')
  {
  }

  predicate IsDigit(c: char) {
    '0' <= c <= '9'
  }

  function DigitChar(d: nat): (c: char)
    requires d < 10
    ensures IsDigit(c)
    ensures c as int - '0' as int == d
  {
    (d + '0' as int) as char
  }

  /** Python's `str(n)` for a non-negative integer: decimal digits, no leading zero. */
  function NatToString(n: nat): string
    decreases n
  {
    if n < 10 then [DigitChar(n)] else NatToString(n / 10) + [DigitChar(n % 10)]
  }

  /** `str(n)` is a non-empty run of digits without a leading zero. */
  lemma {:induction false} NatToStringShape(n: nat)
    ensures |NatToString(n)| >= 1
    ensures forall i :: 0 <= i < |NatToString(n)| ==> IsDigit(NatToString(n)[i])
    ensures |NatToString(n)| > 1 ==> NatToString(n)[0] != '0'
    decreases n
  {
    if n >= 10 {
      NatToStringShape(n / 10);
    }
  }

  /** Python's `str(n)` for any integer: a minus sign for negatives, then the digits. */
  function IntToString(n: int): string {
    if n < 0 then "-" + NatToString(-n) else NatToString(n)
  }

  /** `str(n)` is digits, after a minus sign for negatives. */
  lemma IntToStringShape(n: int)
    ensures |IntToString(n)| >= 1
    ensures forall i :: 0 <= i < |IntToString(n)| ==> IsDigit(IntToString(n)[i]) || IntToString(n)[i] == '-'
  {
    NatToStringShape(if n < 0 then -n else n);
  }

  /** The value of one character read as a decimal digit. */
  function DigitValue(c: char): nat {
    if IsDigit(c) then c as int - '0' as int else 0
  }

  /** The value of a string of decimal digits. */
  function DigitsValue(s: string): nat
    decreases |s|
  {
    if |s| == 0 then 0 else DigitsValue(s[..|s| - 1]) * 10 + DigitValue(s[|s| - 1])
  }

  /** Reading back the digits of `str(n)` yields `n`. */
  lemma {:induction false} NatToStringValue(n: nat)
    ensures DigitsValue(NatToString(n)) == n
    decreases n
  {
    if n >= 10 {
      NatToStringValue(n / 10);
      var s := NatToString(n);
      assert s[..|s| - 1] == NatToString(n / 10);
    }
  }

  /** `n` written with leading zeros up to `width` digits, as `strftime("%Y")`
      (width 4) and `strftime("%m")` (width 2) do. */
  function ZeroPad(n: nat, width: nat): (r: string)
    ensures forall i :: 0 <= i < |r| ==> IsDigit(r[i])
    ensures |r| == if |NatToString(n)| < width then width else |NatToString(n)|
    decreases width
  {
    NatToStringShape(n);
    if |NatToString(n)| >= width then NatToString(n) else "0" + ZeroPad(n, width - 1)
  }

  /** Leading zeros do not change a digit string's value. */
  lemma {:induction false} LeadingZeroValue(s: string)
    requires forall i :: 0 <= i < |s| ==> IsDigit(s[i])
    ensures DigitsValue("0" + s) == DigitsValue(s)
    decreases |s|
  {
    if |s| > 0 {
      var t := "0" + s;
      assert t[..|t| - 1] == "0" + s[..|s| - 1];
      LeadingZeroValue(s[..|s| - 1]);
    }
  }

  /** Reading back a zero-padded number yields the number. */
  lemma {:induction false} ZeroPadValue(n: nat, width: nat)
    ensures DigitsValue(ZeroPad(n, width)) == n
    decreases width
  {
    if |NatToString(n)| >= width {
      NatToStringValue(n);
    } else {
      ZeroPadValue(n, width - 1);
      LeadingZeroValue(ZeroPad(n, width - 1));
    }
  }
}
