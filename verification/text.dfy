/**
 * The small string functions the descriptor parser is built from: Rust's
 * `str::lines`, `str::split(',')`, `str::trim` and `FromStr` for unsigned
 * integers, on strings modelled as sequences of Unicode scalar values.
 */
module Text {
  import opened Wrappers

  // ----- whitespace and trimming -----

  /** Rust's `char::is_whitespace`: the Unicode White_Space property. */
  predicate IsWhitespace(c: char) {
    || ('\t' <= c <= '\r')
    || c == ' '
    || c == '\U{85}'
    || c == '\U{A0}'
    || c == '\U{1680}'
    || ('\U{2000}' <= c <= '\U{200A}')
    || c == '\U{2028}'
    || c == '\U{2029}'
    || c == '\U{202F}'
    || c == '\U{205F}'
    || c == '\U{3000}'
  }

  predicate AllWhitespace(s: string) {
    forall i :: 0 <= i < |s| ==> IsWhitespace(s[i])
  }

  lemma AllWhitespaceConcat(a: string, b: string)
    requires AllWhitespace(a) && AllWhitespace(b)
    ensures AllWhitespace(a + b)
  {
    assert forall i | 0 <= i < |a + b| :: (a + b)[i] == if i < |a| then a[i] else b[i - |a|];
  }

  /** Neither end of `s` is whitespace. */
  predicate IsTrimmed(s: string) {
    |s| == 0 || (!IsWhitespace(s[0]) && !IsWhitespace(s[|s| - 1]))
  }

  /** Rust's `str::trim_start`: the suffix left after dropping leading whitespace. */
  function TrimStart(s: string): (r: string)
    ensures |r| <= |s| && r == s[|s| - |r|..]
    ensures AllWhitespace(s[..|s| - |r|])
    ensures |r| > 0 ==> !IsWhitespace(r[0])
  {
    if |s| > 0 && IsWhitespace(s[0]) then
      var r := TrimStart(s[1..]);
      var n := |s| - |r|;
      assert s[..n] == [s[0]] + s[1..][..n - 1];
      AllWhitespaceConcat([s[0]], s[1..][..n - 1]);
      r
    else
      s
  }

  /** Rust's `str::trim_end`: the prefix left after dropping trailing whitespace. */
  function TrimEnd(s: string): (r: string)
    ensures |r| <= |s| && r == s[..|r|]
    ensures AllWhitespace(s[|r|..])
    ensures |r| > 0 ==> !IsWhitespace(r[|r| - 1])
  {
    if |s| > 0 && IsWhitespace(s[|s| - 1]) then
      var r := TrimEnd(s[..|s| - 1]);
      assert s[|r|..] == s[..|s| - 1][|r|..] + [s[|s| - 1]];
      AllWhitespaceConcat(s[..|s| - 1][|r|..], [s[|s| - 1]]);
      r
    else
      s
  }

  /**
   * Rust's `str::trim`: `s` without its leading and trailing whitespace,
   * i.e. a trimmed slice of `s` with only whitespace around it.
   */
  function Trim(s: string): (r: string)
    ensures IsTrimmed(r)
  {
    var t := TrimStart(s);
    assert |t| > 0 && |TrimEnd(t)| > 0 ==> TrimEnd(t)[0] == t[0];
    TrimEnd(t)
  }

  /** Trimming leaves an already trimmed string alone. */
  lemma TrimOfTrimmed(s: string)
    requires IsTrimmed(s)
    ensures Trim(s) == s
  {
  }

  /**
   * A prefix `r` of a suffix `t` of `s` is a slice of `s`; what `t` drops
   * before it and `r` drops after it are the two ends of `s`.
   */
  lemma SliceBetween<T>(s: seq<T>, t: seq<T>, r: seq<T>, dropped: seq<T> -> bool)
    requires |t| <= |s| && t == s[|s| - |t|..] && dropped(s[..|s| - |t|])
    requires |r| <= |t| && r == t[..|r|] && dropped(t[|r|..])
    ensures |s| - |t| + |r| <= |s|
    ensures r == s[|s| - |t|..|s| - |t| + |r|]
    ensures dropped(s[..|s| - |t|]) && dropped(s[|s| - |t| + |r|..])
  {
    assert t[|r|..] == s[|s| - |t| + |r|..];
  }

  /**
   * Trimming drops only whitespace, and only at the ends: `Trim(s)` is the
   * slice `s[a..b]` where `s[..a]` and `s[b..]` are all whitespace.
   */
  lemma TrimSlice(s: string) returns (a: nat, b: nat)
    ensures a <= b <= |s|
    ensures Trim(s) == s[a..b]
    ensures AllWhitespace(s[..a]) && AllWhitespace(s[b..])
  {
    var t := TrimStart(s);
    var r := TrimEnd(t);
    assert Trim(s) == r;
    a, b := |s| - |t|, |s| - |t| + |r|;
    SliceBetween(s, t, r, AllWhitespace);
  }

  // ----- splitting on a separator -----

  /** The number of occurrences of `c` in `s`. */
  function CountChar(s: string, c: char): nat {
    if |s| == 0 then 0 else (if s[0] == c then 1 else 0) + CountChar(s[1..], c)
  }

  /** The fields `parts` written out with `sep` between consecutive ones. */
  function Join(parts: seq<string>, sep: char): string {
    if |parts| == 0 then ""
    else if |parts| == 1 then parts[0]
    else parts[0] + [sep] + Join(parts[1..], sep)
  }

  /**
   * Rust's `str::split(sep)` for a single-character separator: the maximal
   * separator-free pieces, empty ones included, one more than there are
   * separators.
   */
  function Split(s: string, sep: char): (r: seq<string>)
    ensures |r| == CountChar(s, sep) + 1
    ensures forall k :: 0 <= k < |r| ==> sep !in r[k]
  {
    if |s| == 0 then [""]
    else
      var rest := Split(s[1..], sep);
      if s[0] == sep then [""] + rest
      else [[s[0]] + rest[0]] + rest[1..]
  }

  /** Joining the pieces back with the separator gives the string that was split. */
  lemma {:induction false} JoinSplit(s: string, sep: char)
    ensures Join(Split(s, sep), sep) == s
    decreases |s|
  {
    if |s| > 0 {
      var rest := Split(s[1..], sep);
      JoinSplit(s[1..], sep);
      if s[0] == sep {
        assert s == [sep] + s[1..];
      } else {
        var r := [[s[0]] + rest[0]] + rest[1..];
        assert s == [s[0]] + s[1..];
        assert r[1..] == rest[1..];
      }
    }
  }

  /** Splitting a separator-free prefix glued to `t` extends the first piece of `t`. */
  lemma {:induction false} SplitFreePrefix(p: string, t: string, sep: char)
    requires sep !in p
    ensures Split(p + t, sep) == [p + Split(t, sep)[0]] + Split(t, sep)[1..]
    decreases |p|
  {
    if |p| > 0 {
      SplitFreePrefix(p[1..], t, sep);
      assert (p + t)[1..] == p[1..] + t;
      assert (p + t)[0] == p[0];
      assert [p[0]] + (p[1..] + Split(t, sep)[0]) == p + Split(t, sep)[0];
    } else {
      assert p + t == t;
      assert p + Split(t, sep)[0] == Split(t, sep)[0];
    }
  }

  lemma SplitAfterSeparator(t: string, sep: char)
    ensures Split([sep] + t, sep) == [""] + Split(t, sep)
  {
    assert ([sep] + t)[1..] == t;
  }

  /** Splitting undoes joining, for separator-free fields. */
  lemma {:induction false} SplitJoin(parts: seq<string>, sep: char)
    requires |parts| > 0
    requires forall k :: 0 <= k < |parts| ==> sep !in parts[k]
    ensures Split(Join(parts, sep), sep) == parts
    decreases |parts|
  {
    if |parts| == 1 {
      SplitFreePrefix(parts[0], "", sep);
      assert parts[0] + "" == parts[0];
    } else {
      var tail := Join(parts[1..], sep);
      SplitJoin(parts[1..], sep);
      SplitFreePrefix(parts[0], [sep] + tail, sep);
      assert parts[0] + [sep] + tail == parts[0] + ([sep] + tail);
      SplitAfterSeparator(tail, sep);
      assert parts[0] + "" == parts[0];
      assert parts == [parts[0]] + parts[1..];
    }
  }

  /** A character that is neither the separator nor in any part is not in the join. */
  lemma {:induction false} JoinFree(parts: seq<string>, sep: char, c: char)
    requires c != sep
    requires forall k :: 0 <= k < |parts| ==> c !in parts[k]
    ensures c !in Join(parts, sep)
    decreases |parts|
  {
    if |parts| > 1 {
      assert forall k :: 0 <= k < |parts[1..]| ==> parts[1..][k] == parts[k + 1];
      JoinFree(parts[1..], sep, c);
      assert c !in parts[0];
    }
  }

  /** A non-empty join ends like its last part, or with the separator when that part is empty. */
  lemma {:induction false} JoinLastChar(parts: seq<string>, sep: char)
    requires |parts| > 0 && |Join(parts, sep)| > 0
    ensures var j, l := Join(parts, sep), parts[|parts| - 1];
            j[|j| - 1] == if |l| > 0 then l[|l| - 1] else sep
    decreases |parts|
  {
    if |parts| > 1 {
      var tail := Join(parts[1..], sep);
      assert Join(parts, sep) == (parts[0] + [sep]) + tail;
      assert parts[1..][|parts[1..]| - 1] == parts[|parts| - 1];
      if |tail| > 0 {
        JoinLastChar(parts[1..], sep);
      }
    }
  }

  // ----- splitting into lines -----

  /** The index of the first `c` in `s`, or `|s|` when there is none. */
  function IndexOf(s: string, c: char): (i: nat)
    ensures i <= |s|
    ensures i < |s| ==> s[i] == c
    ensures forall j :: 0 <= j < i ==> s[j] != c
  {
    if |s| == 0 then 0 else if s[0] == c then 0 else 1 + IndexOf(s[1..], c)
  }

  /** Drops one trailing carriage return. */
  function StripCR(line: string): string {
    if |line| > 0 && line[|line| - 1] == '\r' then line[..|line| - 1] else line
  }

  /**
   * Rust's `str::lines`: the text split at each `\n`, a `\r` just before
   * the `\n` dropped, and no empty line after a final line ending.
   */
  function Lines(s: string): (r: seq<string>)
    ensures forall k :: 0 <= k < |r| ==> '\n' !in r[k]
    ensures |s| > 0 <==> |r| > 0
    decreases |s|
  {
    if |s| == 0 then []
    else
      var i := IndexOf(s, '\n');
      if i == |s| then [s] else [StripCR(s[..i])] + Lines(s[i + 1..])
  }

  /** A line as `str::lines` can return it from a terminated line. */
  predicate IsLine(l: string) {
    '\n' !in l && (|l| == 0 || l[|l| - 1] != '\r')
  }

  /** A line ending `str::lines` recognises. */
  predicate IsEol(eol: string) {
    eol == "\n" || eol == "\r\n"
  }

  /** `ls` written out with line `k` followed by `eols[k]`. */
  function Terminate(ls: seq<string>, eols: seq<string>): string
    requires |eols| == |ls|
  {
    if |ls| == 0 then "" else ls[0] + eols[0] + Terminate(ls[1..], eols[1..])
  }

  lemma {:induction false} IndexOfFreePrefix(p: string, t: string, c: char)
    requires c !in p
    ensures IndexOf(p + t, c) == |p| + IndexOf(t, c)
    decreases |p|
  {
    if |p| > 0 {
      assert (p + t)[1..] == p[1..] + t;
      IndexOfFreePrefix(p[1..], t, c);
    } else {
      assert p + t == t;
    }
  }

  /** One terminated line in front of `rest` comes back as one line. */
  lemma {:induction false} LinesOfOneTerminated(l: string, eol: string, rest: string)
    requires IsEol(eol)
    requires IsLine(l)
    ensures Lines(l + eol + rest) == [l] + Lines(rest)
  {
    var s := l + eol + rest;
    var i := IndexOf(s, '\n');
    assert i == |eol| - 1 + |l| by {
      assert s == l + (eol + rest);
      IndexOfFreePrefix(l, eol + rest, '\n');
      assert IndexOf(eol + rest, '\n') == |eol| - 1;
    }
    assert StripCR(s[..i]) == l by {
      assert s[..i] == l + eol[..|eol| - 1];
    }
    assert s[i + 1..] == rest;
  }

  lemma ConsAppend<T>(x: T, m: seq<T>, t: seq<T>)
    ensures [x] + (m + t) == ([x] + m) + t
  {
  }

  /**
   * Lines each followed by a line ending, `\n` or `\r\n` and not
   * necessarily the same one each time, are read back as exactly those
   * lines, whatever follows them.
   */
  lemma {:induction false} LinesOfTerminated(ls: seq<string>, eols: seq<string>, tail: string)
    requires |eols| == |ls|
    requires forall k :: 0 <= k < |ls| ==> IsLine(ls[k]) && IsEol(eols[k])
    ensures Lines(Terminate(ls, eols) + tail) == ls + Lines(tail)
    decreases |ls|
  {
    if |ls| == 0 {
      assert Terminate(ls, eols) + tail == tail;
    } else {
      var l, eol, more := ls[0], eols[0], ls[1..];
      var rest := Terminate(more, eols[1..]) + tail;
      var s := Terminate(ls, eols) + tail;
      assert s == l + eol + rest by {
        assert Terminate(ls, eols) == l + eol + Terminate(more, eols[1..]);
      }
      var lt := Lines(tail);
      assert Lines(rest) == more + lt by {
        assert forall k :: 0 <= k < |more| ==> IsLine(more[k]) && IsEol(eols[1..][k]) by {
          assert forall k :: 0 <= k < |more| ==> more[k] == ls[k + 1] && eols[1..][k] == eols[k + 1];
        }
        LinesOfTerminated(more, eols[1..], tail);
      }
      assert Lines(s) == [l] + Lines(rest) by {
        LinesOfOneTerminated(l, eol, rest);
      }
      assert [l] + (more + lt) == ls + lt by {
        ConsAppend(l, more, lt);
        assert ls == [l] + more;
      }
    }
  }

  /** A last line without a line ending is read as itself, `\r` and all; an empty one is no line. */
  lemma LinesUnterminated(t: string)
    requires '\n' !in t
    ensures Lines(t) == if |t| == 0 then [] else [t]
  {
    if |t| > 0 {
      assert IndexOf(t, '\n') == |t|;
    }
  }

  /** The last line, with or without its ending, is read as itself; only an empty one needs the ending. */
  lemma {:induction false} LinesOfLastLine(last: string, final: string)
    requires IsLine(last)
    requires IsEol(final) || (final == "" && |last| > 0)
    ensures Lines(last + final) == [last]
  {
    if final == "" {
      assert last + final == last;
      LinesUnterminated(last);
    } else {
      LinesOfOneTerminated(last, final, "");
      assert last + final + "" == last + final;
    }
  }

  /**
   * A text of lines each ended by `\n` or `\r\n`, the last one's ending
   * optional: `str::lines` gives back exactly the lines. Only a last line
   * that is empty needs its ending, as without it there is no line at all.
   */
  lemma {:induction false} LinesOfText(ls: seq<string>, eols: seq<string>, final: string)
    requires |ls| > 0 && |eols| == |ls| - 1
    requires forall k :: 0 <= k < |ls| ==> IsLine(ls[k])
    requires forall k :: 0 <= k < |eols| ==> IsEol(eols[k])
    requires IsEol(final) || (final == "" && |ls[|ls| - 1]| > 0)
    ensures Lines(Terminate(ls[..|ls| - 1], eols) + (ls[|ls| - 1] + final)) == ls
  {
    var init, last := ls[..|ls| - 1], ls[|ls| - 1];
    assert Lines(Terminate(init, eols) + (last + final)) == init + Lines(last + final) by {
      assert forall k :: 0 <= k < |init| ==> IsLine(init[k]) && IsEol(eols[k]) by {
        assert forall k :: 0 <= k < |init| ==> init[k] == ls[k];
      }
      LinesOfTerminated(init, eols, last + final);
    }
    assert Lines(last + final) == [last] by {
      LinesOfLastLine(last, final);
    }
    assert init + [last] == ls;
  }

  // ----- unsigned decimal numbers -----

  predicate IsDigit(c: char) {
    '0' <= c <= '9'
  }

  predicate AllDigits(s: string) {
    forall i :: 0 <= i < |s| ==> IsDigit(s[i])
  }

  function DigitValue(c: char): nat
    requires IsDigit(c)
  {
    c as int - '0' as int
  }

  function DigitChar(d: nat): (c: char)
    requires d < 10
    ensures IsDigit(c) && DigitValue(c) == d
  {
    ('0' as int + d) as char
  }

  /**
   * The value of a string of decimal digits, most significant first, or
   * `None` when some character is not a digit.
   */
  function DigitsValue(s: string): Option<nat> {
    if |s| == 0 then Some(0)
    else if !IsDigit(s[|s| - 1]) then None
    else
      match DigitsValue(s[..|s| - 1])
      case None => None
      case Some(v) => Some(10 * v + DigitValue(s[|s| - 1]))
  }

  /** Digits have a value exactly when every character is a digit. */
  lemma {:induction false} DigitsValueDefined(s: string)
    ensures DigitsValue(s).Some? <==> AllDigits(s)
  {
    if |s| > 0 {
      DigitsValueDefined(s[..|s| - 1]);
      assert forall i | 0 <= i < |s| - 1 :: s[..|s| - 1][i] == s[i];
    }
  }

  /**
   * Rust's `FromStr` for an unsigned integer type whose largest value is
   * `max`: an optional `+`, then one or more decimal digits, and a value
   * that fits the type.
   */
  function ParseUnsigned(s: string, max: nat): (r: Option<nat>)
    ensures r.Some? ==> r.value <= max
    ensures |s| == 0 || s == "+" ==> r.None?
  {
    if |s| == 0 || s == "+" then None
    else
      var digits := if s[0] == '+' then s[1..] else s;
      match DigitsValue(digits)
      case Some(v) => if v <= max then Some(v) else None
      case None => None
  }

  /**
   * Only an optional leading `+` and digits are accepted: any other
   * character anywhere makes the parse fail.
   */
  lemma ParseUnsignedRejects(s: string, max: nat, i: nat)
    requires i < |s| && !IsDigit(s[i]) && !(i == 0 && s[i] == '+')
    ensures ParseUnsigned(s, max).None?
  {
    if |s| > 0 && s != "+" {
      var digits := if s[0] == '+' then s[1..] else s;
      DigitsValueDefined(digits);
      if s[0] == '+' {
        assert digits[i - 1] == s[i];
      } else {
        assert digits[i] == s[i];
      }
    }
  }

  /** Digits whose value exceeds the type's largest value are rejected, with or without a sign. */
  lemma ParseUnsignedOverflow(s: string, max: nat)
    requires |s| > 0 && DigitsValue(s).Some? && DigitsValue(s).value > max
    ensures ParseUnsigned(s, max).None?
    ensures ParseUnsigned("+" + s, max).None?
  {
    assert s[0] != '+' by {
      DigitsValueDefined(s);
    }
    assert ("+" + s)[1..] == s;
  }

  /** One leading `+` changes nothing, unless what follows is empty or is itself signed. */
  lemma ParseUnsignedSign(s: string, max: nat)
    requires |s| > 0 && s[0] != '+'
    ensures ParseUnsigned("+" + s, max) == ParseUnsigned(s, max)
  {
    assert ("+" + s)[1..] == s;
  }

  /** A leading zero does not change a digit string's value. */
  lemma {:induction false} DigitsValueLeadingZero(s: string)
    ensures DigitsValue("0" + s) == DigitsValue(s)
    decreases |s|
  {
    if |s| > 0 {
      var z := "0" + s;
      assert z[..|z| - 1] == "0" + s[..|s| - 1];
      assert z[|z| - 1] == s[|s| - 1];
      DigitsValueLeadingZero(s[..|s| - 1]);
    }
  }

  /** Leading zeros are accepted and ignored: `"007"` and `"+007"` both parse to 7. */
  lemma ParseUnsignedLeadingZero(s: string, max: nat)
    requires |s| > 0 && s[0] != '+'
    ensures ParseUnsigned("0" + s, max) == ParseUnsigned(s, max)
  {
    DigitsValueLeadingZero(s);
  }

  /** The shortest decimal spelling of `n`. */
  function ToDecimal(n: nat): (r: string)
    ensures |r| > 0 && AllDigits(r)
    ensures |r| > 1 ==> r[0] != '0'
  {
    if n < 10 then [DigitChar(n)] else ToDecimal(n / 10) + [DigitChar(n % 10)]
  }

  lemma {:induction false} DigitsValueOfToDecimal(n: nat)
    ensures DigitsValue(ToDecimal(n)) == Some(n)
  {
    if n >= 10 {
      var r := ToDecimal(n);
      assert r[..|r| - 1] == ToDecimal(n / 10);
      DigitsValueOfToDecimal(n / 10);
    }
  }

  /** Parsing reads back what `ToDecimal` writes, with or without a `+` sign. */
  lemma ParseToDecimal(n: nat, max: nat)
    requires n <= max
    ensures ParseUnsigned(ToDecimal(n), max) == Some(n)
    ensures ParseUnsigned("+" + ToDecimal(n), max) == Some(n)
  {
    DigitsValueOfToDecimal(n);
    assert ("+" + ToDecimal(n))[1..] == ToDecimal(n);
  }

  /** Distinct numbers have distinct decimal spellings. */
  lemma ToDecimalInjective(m: nat, n: nat)
    requires ToDecimal(m) == ToDecimal(n)
    ensures m == n
  {
    DigitsValueOfToDecimal(m);
    DigitsValueOfToDecimal(n);
  }

  /** A decimal spelling is trimmed and holds no comma. */
  lemma ToDecimalIsPlain(n: nat)
    ensures IsTrimmed(ToDecimal(n)) && ',' !in ToDecimal(n)
  {
    var r := ToDecimal(n);
    assert IsDigit(r[0]) && IsDigit(r[|r| - 1]);
    assert forall i | 0 <= i < |r| :: r[i] != ',';
  }
}
