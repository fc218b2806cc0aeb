/**
  The Java library text operations the save file depends on, on `string`:
  `Integer.toString`, `Integer.parseInt`, `String.split("\\|")` with its
  dropping of trailing empty strings, the `|`-joining done by the writers, and
  `BufferedReader.readLine` against lines written with `BufferedWriter.newLine`.
*/
module JavaText {
  import opened Wrappers
  import opened JavaInt

  predicate IsDigit(c: char) {
    '0' <= c <= '9'
  }

  predicate AllDigits(s: string) {
    forall i | 0 <= i < |s| :: IsDigit(s[i])
  }

  function DigitChar(d: int): (c: char)
    requires 0 <= d <= 9
    ensures IsDigit(c) && c as int - '0' as int == d
  {
    ('0' as int + d) as char
  }

  /** The value of a string of decimal digits (leading zeros allowed). */
  function DigitsValue(s: string): nat
    requires AllDigits(s)
    decreases |s|
  {
    if |s| == 0 then 0 else DigitsValue(s[..|s| - 1]) * 10 + (s[|s| - 1] as int - '0' as int)
  }

  /** `Integer.toString` of a non-negative value: its decimal digits, without leading zeros. */
  function NatToText(n: nat): (s: string)
    ensures |s| > 0 && AllDigits(s)
    ensures s[0] == '0' <==> n == 0
    decreases n
  {
    if n < 10 then [DigitChar(n)]
    else NatToText(n / 10) + [DigitChar(n % 10)]
  }

  /** The digits `Integer.toString` writes have the value they were written from. */
  lemma {:induction false} NatToTextValue(n: nat)
    ensures DigitsValue(NatToText(n)) == n
    decreases n
  {
    if n >= 10 {
      var prefix, s := NatToText(n / 10), NatToText(n);
      NatToTextValue(n / 10);
      assert s[..|s| - 1] == prefix;
      assert n == n / 10 * 10 + n % 10;
    }
  }

  /** `Integer.toString` (also what `n + ""` produces): a minus sign for negative values. */
  function IntToText(n: int): (s: string)
    ensures |s| > 0 && '|' !in s && IsLine(s)
    ensures n < 0 <==> s[0] == '-'
  {
    if n < 0 then "-" + NatToText(-n) else NatToText(n)
  }

  /**
    `Integer.parseInt`: an optional `+` or `-`, then one or more decimal digits,
    whose value must fit in an `int`; anything else is a `NumberFormatException`,
    modelled as `None`.
  */
  function ParseInt(s: string): (r: Option<int>)
    ensures r.Some? ==> IsInt(r.value)
    ensures s == "" || s == "-" || s == "+" ==> r.None?
  {
    if |s| == 0 then None
    else
      var digits := if s[0] == '-' || s[0] == '+' then s[1..] else s;
      if |digits| == 0 || !AllDigits(digits) then None
      else
        var d: int := DigitsValue(digits);
        var v := if s[0] == '-' then -d else d;
        if IsInt(v) then Some(v) else None
  }

  /** What `parseInt` accepts: a sign or a digit, then digits only. */
  lemma ParseIntAccepts(s: string)
    requires ParseInt(s).Some?
    ensures |s| >= 1 && (IsDigit(s[0]) || s[0] == '-' || s[0] == '+')
    ensures forall i | 1 <= i < |s| :: IsDigit(s[i])
    ensures IsDigit(s[0]) ==> ParseInt(s) == Some(DigitsValue(s))
    ensures s[0] == '-' ==> |s| >= 2 && ParseInt(s) == Some(-(DigitsValue(s[1..]) as int))
    ensures s[0] == '+' ==> |s| >= 2 && ParseInt(s) == Some(DigitsValue(s[1..]))
  {
  }

  /** `-` then digits reads as the negated digits value. */
  lemma ParseNegative(digits: string)
    requires |digits| >= 1 && AllDigits(digits)
    requires IsInt(-(DigitsValue(digits) as int))
    ensures ParseInt("-" + digits) == Some(-(DigitsValue(digits) as int))
  {
    var s := "-" + digits;
    assert s[0] == '-' && s[1..] == digits;
  }
  /** `+` then digits reads as the digits value. */
  lemma ParsePlus(digits: string)
    requires |digits| >= 1 && AllDigits(digits)
    requires IsInt(DigitsValue(digits))
    ensures ParseInt("+" + digits) == Some(DigitsValue(digits))
  {
    var s := "+" + digits;
    assert s[0] == '+' && s[1..] == digits;
  }
  /** Digits alone read as their value. */
  lemma ParseUnsigned(digits: string)
    requires |digits| >= 1 && AllDigits(digits)
    requires IsInt(DigitsValue(digits))
    ensures ParseInt(digits) == Some(DigitsValue(digits))
  {
    assert IsDigit(digits[0]);
  }

  /** Conversely, a sign or nothing followed by digits whose value is an `int` is accepted. */
  lemma ParseIntAcceptsNumeral(sign: string, digits: string)
    requires sign == "" || sign == "-" || sign == "+"
    requires |digits| >= 1 && AllDigits(digits)
    requires IsInt(if sign == "-" then -(DigitsValue(digits) as int) else DigitsValue(digits))
    ensures ParseInt(sign + digits)
         == Some(if sign == "-" then -(DigitsValue(digits) as int) else DigitsValue(digits))
  {
    if sign == "-" {
      ParseNegative(digits);
    } else if sign == "+" {
      ParsePlus(digits);
    } else {
      assert sign + digits == digits;
      ParseUnsigned(digits);
    }
  }

  /** Every `int` printed by `Integer.toString` parses back to itself. */
  lemma ParseIntToText(n: int)
    requires IsInt(n)
    ensures ParseInt(IntToText(n)) == Some(n)
  {
    NatToTextValue(if n < 0 then -n else n);
    if n < 0 {
      assert IntToText(n)[1..] == NatToText(-n);
    }
  }

  // ---------------------------------------------------------------- fields

  /** The fields separated by `|`, with no separator after the last one. */
  function Join(fields: seq<string>): string
    decreases |fields|
  {
    if |fields| == 0 then ""
    else if |fields| == 1 then fields[0]
    else fields[0] + "|" + Join(fields[1..])
  }

  lemma JoinFour(a: string, b: string, c: string, d: string)
    ensures Join([a, b, c, d]) == a + "|" + b + "|" + c + "|" + d
  {
    var fs := [a, b, c, d];
    assert fs[1..] == [b, c, d] && fs[1..][1..] == [c, d] && fs[1..][1..][1..] == [d];
    assert Join([c, d]) == c + "|" + d;
    assert Join([b, c, d]) == b + "|" + (c + "|" + d);
    assert Join(fs) == a + "|" + (b + "|" + (c + "|" + d));
  }

  /** Appending a field appends a separator and the field. */
  lemma {:induction false} JoinSnoc(fields: seq<string>, f: string)
    requires |fields| >= 1
    ensures Join(fields + [f]) == Join(fields) + "|" + f
    decreases |fields|
  {
    var fs := fields + [f];
    if |fields| == 1 {
      assert fs[1..] == [f];
    } else {
      assert fs[1..] == fields[1..] + [f];
      JoinSnoc(fields[1..], f);
    }
  }

  /** What a writer of `n` fields has produced after the first `i`: those fields
      joined, and the separator that follows field `i - 1` unless it was the last. */
  function JoinPrefix(fields: seq<string>, i: nat, n: nat): string
    requires i <= |fields|
  {
    Join(fields[..i]) + (if 0 < i < n then "|" else "")
  }

  /** Writing field `i`, then a separator unless it is the last of `n`, extends the prefix. */
  lemma JoinPrefixStep(fields: seq<string>, i: nat, n: nat)
    requires i < n <= |fields|
    ensures JoinPrefix(fields, i, n) + fields[i] + (if i + 1 != n then "|" else "")
         == JoinPrefix(fields, i + 1, n)
  {
    if i > 0 {
      JoinSnoc(fields[..i], fields[i]);
    }
    assert fields[..i + 1] == fields[..i] + [fields[i]];
  }

  /** Joining fields that hold no line terminator gives a single line, at
      least as long as the last field. */
  lemma {:induction false} JoinIsLine(fields: seq<string>)
    requires forall k | 0 <= k < |fields| :: IsLine(fields[k])
    ensures IsLine(Join(fields))
    ensures |fields| >= 1 ==> |Join(fields)| >= |fields[|fields| - 1]|
    decreases |fields|
  {
    if |fields| >= 2 {
      JoinIsLine(fields[1..]);
    }
  }

  predicate NoBars(fields: seq<string>) {
    forall k | 0 <= k < |fields| :: '|' !in fields[k]
  }

  lemma {:induction false} BarInJoin(fields: seq<string>)
    requires NoBars(fields)
    ensures '|' in Join(fields) <==> |fields| >= 2
    decreases |fields|
  {
  }

  /** The pieces of `s` between `|` characters, empty pieces included. */
  function RawSplit(s: string): (r: seq<string>)
    ensures |r| >= 1 && NoBars(r)
    ensures Join(r) == s
    decreases |s|
  {
    if |s| == 0 then [""]
    else
      var rest := RawSplit(s[1..]);
      if s[0] == '|' then
        assert s == "|" + s[1..];
        [""] + rest
      else
        var r := [[s[0]] + rest[0]] + rest[1..];
        assert r[1..] == rest[1..];
        assert s == [s[0]] + s[1..];
        r
  }

  /** In a join of two or more `|`-free fields, the first `|` ends the first field. */
  lemma FirstBar(fields: seq<string>)
    requires |fields| >= 2 && NoBars(fields)
    ensures |fields[0]| < |Join(fields)| && Join(fields)[|fields[0]|] == '|'
    ensures forall i | 0 <= i < |fields[0]| :: Join(fields)[i] == fields[0][i] != '|'
  {
  }

  /** `|`-joining is injective on fields that contain no `|`. */
  lemma {:induction false} JoinInjective(a: seq<string>, b: seq<string>)
    requires |a| >= 1 && |b| >= 1 && NoBars(a) && NoBars(b)
    requires Join(a) == Join(b)
    ensures a == b
    decreases |a|
  {
    BarInJoin(a);
    BarInJoin(b);
    if |a| >= 2 {
      var ja, jb := Join(a), Join(b);
      FirstBar(a);
      FirstBar(b);
      assert |a[0]| == |b[0]|;
      assert a[0] == ja[..|a[0]|] == jb[..|b[0]|] == b[0];
      assert Join(a[1..]) == ja[|a[0]| + 1..] == jb[|b[0]| + 1..] == Join(b[1..]);
      JoinInjective(a[1..], b[1..]);
      assert a == [a[0]] + a[1..];
      assert b == [b[0]] + b[1..];
    }
  }

  /** The prefix of `fs` left after removing its trailing empty strings. */
  function DropTrailingEmpty(fs: seq<string>): (r: seq<string>)
    ensures |r| <= |fs| && r == fs[..|r|]
    ensures |r| == 0 || r[|r| - 1] != ""
    ensures forall k | |r| <= k < |fs| :: fs[k] == ""
    decreases |fs|
  {
    if |fs| > 0 && fs[|fs| - 1] == "" then DropTrailingEmpty(fs[..|fs| - 1]) else fs
  }

  /**
    `s.split("\\|")`: a string without `|` yields itself as the only field (so
    the empty string yields one empty field); otherwise the pieces between the
    separators, with trailing empty pieces removed.
  */
  function Split(s: string): (r: seq<string>)
    ensures NoBars(r)
    ensures '|' !in s ==> r == [s]
    ensures '|' in s ==>
      var pieces := RawSplit(s);
      && |r| <= |pieces| && r == pieces[..|r|]
      && (|r| == 0 || r[|r| - 1] != "")
      && forall k | |r| <= k < |pieces| :: pieces[k] == ""
  {
    if '|' !in s then [s] else DropTrailingEmpty(RawSplit(s))
  }

  /** Splitting the join of `|`-free fields gives the fields back, provided the
      last one is non-empty or is the only one. */
  lemma SplitJoin(fields: seq<string>)
    requires |fields| >= 1 && NoBars(fields)
    requires |fields| == 1 || fields[|fields| - 1] != ""
    ensures Split(Join(fields)) == fields
  {
    BarInJoin(fields);
    if |fields| >= 2 {
      JoinInjective(RawSplit(Join(fields)), fields);
    }
  }

  // ----------------------------------------------------------------- lines

  predicate IsTerminator(c: char) {
    c == '\n' || c == '\r'
  }

  /** A string that `readLine` can return: it holds no line terminator. */
  predicate IsLine(s: string) {
    forall i | 0 <= i < |s| :: !IsTerminator(s[i])
  }

  /** The length of the first line of `t`: the index of its first terminator, or `|t|`. */
  function LineEnd(t: string): (k: nat)
    ensures k <= |t| && IsLine(t[..k])
    ensures k < |t| ==> IsTerminator(t[k])
    decreases |t|
  {
    if |t| == 0 || IsTerminator(t[0]) then 0
    else
      var k := 1 + LineEnd(t[1..]);
      assert t[..k] == [t[0]] + t[1..][..k - 1];
      k
  }

  /** `t` holds the two-character terminator `\r\n` at index `k`. */
  predicate CrLfAt(t: string, k: nat) {
    k + 1 < |t| && t[k] == '\r' && t[k + 1] == '\n'
  }

  /**
    The successive results of `BufferedReader.readLine` on the text `t` until it
    returns null: a line ends at `\n`, at `\r`, or at `\r\n`, and a terminator
    at the very end of the text does not start another line.
  */
  function ReadLines(t: string): (ls: seq<string>)
    ensures forall i | 0 <= i < |ls| :: IsLine(ls[i])
    decreases |t|
  {
    if |t| == 0 then []
    else
      var k := LineEnd(t);
      if k == |t| then
        assert t == t[..k];
        [t]
      else if CrLfAt(t, k) then [t[..k]] + ReadLines(t[k + 2..])
      else [t[..k]] + ReadLines(t[k + 1..])
  }

  /**
    One call of `readLine`: a non-empty text gives at least one line; the first
    is the text up to its first terminator; and reading resumes after that
    terminator, where `\r\n` counts as one, so a terminator at the very end
    starts no further line. Only the empty text gives no line.
  */
  lemma ReadLinesStep(t: string)
    ensures |ReadLines(t)| == 0 <==> |t| == 0
    ensures |t| > 0 ==>
      var ls := ReadLines(t);
      var k := |ls[0]|;
      && k <= |t| && ls[0] == t[..k]
      && (k == |t| ==> |ls| == 1)
      && (k < |t| ==> IsTerminator(t[k]) && ls[1..] == ReadLines(t[if CrLfAt(t, k) then k + 2 else k + 1..]))
  {
    if |t| > 0 {
      var k := LineEnd(t);
      assert ReadLines(t)[0] == t[..k];
    }
  }

  /** One of the three line terminators `readLine` recognises. */
  predicate IsLineBreak(sep: string) {
    sep == "\n" || sep == "\r" || sep == "\r\n"
  }

  /**
    The text written by `write(line)` for each line with `sep` between them;
    `newLine()` writes "\n", the default.
  */
  function JoinLines(ls: seq<string>, sep: string := "\n"): string
    decreases |ls|
  {
    if |ls| == 0 then ""
    else if |ls| == 1 then ls[0]
    else ls[0] + sep + JoinLines(ls[1..], sep)
  }

  lemma {:induction false} LineEndAt(a: string, sep: string, rest: string)
    requires IsLine(a) && IsLineBreak(sep)
    ensures LineEnd(a + sep + rest) == |a|
    decreases |a|
  {
    var t := a + sep + rest;
    if |a| > 0 {
      assert t[1..] == a[1..] + sep + rest;
      LineEndAt(a[1..], sep, rest);
    }
  }

  /** A line followed by a terminator is read as that line, then reading goes
      on after the terminator; a lone `\r` must not be followed by `\n`. */
  lemma ReadLinesCons(a: string, sep: string, rest: string)
    requires IsLine(a) && IsLineBreak(sep)
    requires sep == "\r" && |rest| > 0 ==> rest[0] != '\n'
    ensures ReadLines(a + sep + rest) == [a] + ReadLines(rest)
  {
    var t := a + sep + rest;
    var k := |a|;
    LineEndAt(a, sep, rest);
    assert t[..k] == a;
    if sep == "\r\n" {
      assert t[k + 2..] == rest;
    } else {
      assert k + 1 < |t| ==> t[k + 1] == rest[0];
      assert t[k + 1..] == rest;
    }
  }

  /** Reading joined lines: the first written line comes back first, and
      reading goes on with the rest of the join. */
  lemma ReadJoinHead(ls: seq<string>)
    requires |ls| >= 2 && IsLine(ls[0])
    ensures ReadLines(JoinLines(ls)) == [ls[0]] + ReadLines(JoinLines(ls[1..]))
  {
    var rest := JoinLines(ls[1..]);
    assert JoinLines(ls) == ls[0] + "\n" + rest;
    ReadLinesCons(ls[0], "\n", rest);
  }

  /** Joined lines never start with `\n` unless `\n` is the separator. */
  lemma JoinLinesStart(ls: seq<string>, sep: string)
    requires sep == "\r" || sep == "\r\n"
    requires forall i | 0 <= i < |ls| :: IsLine(ls[i])
    ensures |JoinLines(ls, sep)| > 0 ==> JoinLines(ls, sep)[0] != '\n'
  {
    if |ls| >= 2 && |ls[0]| == 0 {
      assert JoinLines(ls, sep)[0] == sep[0];
    } else if |ls| >= 1 && |ls[0]| > 0 {
      assert JoinLines(ls, sep)[0] == ls[0][0];
    }
  }

  /**
    Reading back written lines gives them back when the last one is non-empty,
    whichever of `\n`, `\r` and `\r\n` separates them.
  */
  lemma {:induction false} ReadJoinLines(ls: seq<string>, sep: string := "\n")
    requires IsLineBreak(sep)
    requires |ls| >= 1 && ls[|ls| - 1] != ""
    requires forall i | 0 <= i < |ls| :: IsLine(ls[i])
    ensures ReadLines(JoinLines(ls, sep)) == ls
    decreases |ls|
  {
    if |ls| >= 2 {
      var rest := JoinLines(ls[1..], sep);
      assert ReadLines(JoinLines(ls, sep)) == [ls[0]] + ReadLines(rest) by {
        assert JoinLines(ls, sep) == ls[0] + sep + rest;
        if sep == "\r" {
          JoinLinesStart(ls[1..], sep);
        }
        ReadLinesCons(ls[0], sep, rest);
      }
      assert ReadLines(rest) == ls[1..] by {
        ReadJoinLines(ls[1..], sep);
      }
      assert ls == [ls[0]] + ls[1..];
    }
  }

  /** Whatever the last written line holds, the lines before it are read back. */
  lemma {:induction false} ReadJoinLinesPrefix(ls: seq<string>)
    requires |ls| >= 1
    requires forall i | 0 <= i < |ls| - 1 :: IsLine(ls[i])
    ensures |ReadLines(JoinLines(ls))| >= |ls| - 1
    ensures ReadLines(JoinLines(ls))[..|ls| - 1] == ls[..|ls| - 1]
    decreases |ls|
  {
    if |ls| >= 2 {
      var tail := ReadLines(JoinLines(ls[1..]));
      assert ReadLines(JoinLines(ls)) == [ls[0]] + tail by {
        ReadJoinHead(ls);
      }
      assert |tail| >= |ls| - 2 && tail[..|ls| - 2] == ls[1..][..|ls| - 2] by {
        ReadJoinLinesPrefix(ls[1..]);
      }
      assert ls[..|ls| - 1] == [ls[0]] + ls[1..][..|ls| - 2];
    }
  }

  /** Writing a line ahead of others puts it and a `\n` before their text. */
  lemma JoinLinesCons(a: string, tail: seq<string>)
    requires |tail| >= 1
    ensures JoinLines([a] + tail) == a + "\n" + JoinLines(tail)
  {
    assert ([a] + tail)[1..] == tail;
  }

  /** The first of several written lines, the last of them empty, reads back
      ahead of the rest. */
  lemma ReadEmptyLastHead(ls: seq<string>)
    requires |ls| >= 1 && IsLine(ls[0])
    ensures ReadLines(JoinLines(ls + [""])) == [ls[0]] + ReadLines(JoinLines(ls[1..] + [""]))
  {
    var tail := ls[1..] + [""];
    assert ls + [""] == [ls[0]] + tail;
    JoinLinesCons(ls[0], tail);
    ReadLinesCons(ls[0], "\n", JoinLines(tail));
  }

  /** A written last line that is empty leaves the text ending in a terminator,
      so reading stops one line early. */
  lemma {:induction false} ReadJoinLinesEmptyLast(ls: seq<string>)
    requires |ls| >= 1
    requires forall i | 0 <= i < |ls| :: IsLine(ls[i])
    ensures ReadLines(JoinLines(ls + [""])) == ls
    decreases |ls|
  {
    ReadEmptyLastHead(ls);
    if |ls| == 1 {
      assert ls[1..] + [""] == [""];
    } else {
      ReadJoinLinesEmptyLast(ls[1..]);
      assert ls == [ls[0]] + ls[1..];
    }
  }
}
