/** The handful of Python string operations the pipeline relies on, written
    out with Python's semantics: `str.split(sep)` (empty pieces kept),
    `str.split()` (runs of whitespace collapse), `int()` on a decimal token,
    and the code-point ordering `sorted` uses on strings. */
module Strings {
  import opened Results

  // ---------------------------------------------------------------------
  // str.split(sep) and its inverse sep.join(parts)
  // ---------------------------------------------------------------------

  /** `sep.join(parts)`. */
  function Join(parts: seq<string>, sep: char): string
    requires |parts| >= 1
    decreases |parts|
  {
    if |parts| == 1 then parts[0] else parts[0] + [sep] + Join(parts[1..], sep)
  }

  /** `s.split(sep)`: every piece between separators, empty pieces included;
      there is always at least one piece and no piece holds the separator. */
  function Split(s: string, sep: char): (parts: seq<string>)
    ensures |parts| >= 1
    ensures forall i :: 0 <= i < |parts| ==> sep !in parts[i]
    ensures |parts| == 1 <==> sep !in s
    decreases |s|
  {
    if |s| == 0 then [""]
    else if s[0] == sep then [""] + Split(s[1..], sep)
    else
      var rest := Split(s[1..], sep);
      [[s[0]] + rest[0]] + rest[1..]
  }

  /** Joining the pieces back with the separator gives the string again. */
  lemma {:induction false} JoinSplit(s: string, sep: char)
    ensures Join(Split(s, sep), sep) == s
    decreases |s|
  {
    if |s| == 0 {
    } else if s[0] == sep {
      JoinSplit(s[1..], sep);
      var rest := Split(s[1..], sep);
      assert ([""] + rest)[1..] == rest;
    } else {
      JoinSplit(s[1..], sep);
      var rest := Split(s[1..], sep);
      var parts := [[s[0]] + rest[0]] + rest[1..];
      if |rest| == 1 {
        assert s == [s[0]] + s[1..];
      } else {
        assert parts[1..] == rest[1..];
        assert Join(rest, sep) == rest[0] + [sep] + Join(rest[1..], sep);
        assert s == [s[0]] + s[1..];
      }
    }
  }

  /** A separator-free word is a single piece. */
  lemma {:induction false} SplitWord(w: string, sep: char)
    requires sep !in w
    ensures Split(w, sep) == [w]
    decreases |w|
  {
    if |w| > 0 {
      SplitWord(w[1..], sep);
      assert [w[0]] + w[1..] == w;
    }
  }

  /** A separator-free word followed by a separator is the first piece. */
  lemma {:induction false} SplitWordSep(w: string, sep: char, t: string)
    requires sep !in w
    ensures Split(w + [sep] + t, sep) == [w] + Split(t, sep)
    decreases |w|
  {
    var s := w + [sep] + t;
    if |w| == 0 {
      assert s == [sep] + t;
      assert s[1..] == t;
    } else {
      SplitWordSep(w[1..], sep, t);
      assert s[0] == w[0];
      assert s[1..] == w[1..] + [sep] + t;
      assert [w[0]] + w[1..] == w;
    }
  }

  /** Splitting a join of separator-free pieces gives the pieces back. */
  lemma {:induction false} SplitJoin(parts: seq<string>, sep: char)
    requires |parts| >= 1
    requires forall i :: 0 <= i < |parts| ==> sep !in parts[i]
    ensures Split(Join(parts, sep), sep) == parts
    decreases |parts|
  {
    if |parts| == 1 {
      SplitWord(parts[0], sep);
    } else {
      SplitJoin(parts[1..], sep);
      SplitWordSep(parts[0], sep, Join(parts[1..], sep));
      assert [parts[0]] + parts[1..] == parts;
    }
  }

  // ---------------------------------------------------------------------
  // str.split() with no argument
  // ---------------------------------------------------------------------

  /** The characters Python 2's `str.split()` treats as whitespace. */
  predicate IsSpace(c: char)
  {
    c == ' ' || c == '\t' || c == '\n' || c == '\r' || c == '\U{0B}' || c == '\U{0C}'
  }

  predicate NoSpace(s: string)
  {
    forall k :: 0 <= k < |s| ==> !IsSpace(s[k])
  }

  /** Length of the run of non-whitespace characters that starts `s`. */
  function WordLength(s: string): (k: nat)
    ensures k <= |s|
    ensures NoSpace(s[..k])
    ensures k == |s| || IsSpace(s[k])
    decreases |s|
  {
    if |s| == 0 || IsSpace(s[0]) then 0
    else
      var k := 1 + WordLength(s[1..]);
      assert s[..k] == [s[0]] + s[1..][..k - 1];
      k
  }

  /** `s.split()`: the maximal runs of non-whitespace, in order. */
  function Fields(s: string): (fs: seq<string>)
    ensures forall i :: 0 <= i < |fs| ==> |fs[i]| > 0 && NoSpace(fs[i])
    decreases |s|
  {
    if |s| == 0 then []
    else if IsSpace(s[0]) then Fields(s[1..])
    else
      var k := WordLength(s);
      [s[..k]] + Fields(s[k..])
  }

  /** Concatenation of a sequence of strings. */
  function Concat(ss: seq<string>): string
  {
    if |ss| == 0 then "" else ss[0] + Concat(ss[1..])
  }

  /** `s` with every whitespace character deleted. */
  function Squeeze(s: string): string
  {
    if |s| == 0 then "" else if IsSpace(s[0]) then Squeeze(s[1..]) else [s[0]] + Squeeze(s[1..])
  }

  lemma {:induction false} SqueezeNoSpace(s: string)
    requires NoSpace(s)
    ensures Squeeze(s) == s
  {
    if |s| > 0 {
      SqueezeNoSpace(s[1..]);
      assert s == [s[0]] + s[1..];
    }
  }

  lemma {:induction false} SqueezeAppend(a: string, b: string)
    ensures Squeeze(a + b) == Squeeze(a) + Squeeze(b)
  {
    if |a| > 0 {
      SqueezeAppend(a[1..], b);
      assert (a + b)[1..] == a[1..] + b;
    } else {
      assert a + b == b;
    }
  }

  /** The fields hold every non-whitespace character of the line, in order,
      and nothing else. */
  lemma {:induction false} FieldsKeepText(s: string)
    ensures Concat(Fields(s)) == Squeeze(s)
    decreases |s|
  {
    if |s| == 0 {
    } else if IsSpace(s[0]) {
      FieldsKeepText(s[1..]);
    } else {
      var k := WordLength(s);
      FieldsKeepText(s[k..]);
      assert s == s[..k] + s[k..];
      SqueezeAppend(s[..k], s[k..]);
      SqueezeNoSpace(s[..k]);
    }
  }

  /** Whitespace-free, non-empty columns joined by tabs split back into the
      same columns: this is how a tab-delimited tool line is read. */
  lemma {:induction false} FieldsOfTabJoin(cols: seq<string>)
    requires |cols| >= 1
    requires forall i :: 0 <= i < |cols| ==> |cols[i]| > 0 && NoSpace(cols[i])
    ensures Fields(Join(cols, '\t')) == cols
    decreases |cols|
  {
    var s := Join(cols, '\t');
    var w := cols[0];
    WordPrefix(w, if |cols| == 1 then "" else ['\t'] + Join(cols[1..], '\t'));
    if |cols| == 1 {
      assert s == w + "";
      assert s[|w|..] == "";
    } else {
      var tail := Join(cols[1..], '\t');
      assert s == w + (['\t'] + tail);
      assert s[|w|..] == ['\t'] + tail;
      assert s[|w|..][1..] == tail;
      FieldsOfTabJoin(cols[1..]);
      assert [w] + cols[1..] == cols;
    }
  }

  /** A whitespace-free word followed by nothing or by whitespace is read as
      exactly that word. */
  lemma WordPrefix(w: string, rest: string)
    requires |w| > 0 && NoSpace(w)
    requires rest == "" || IsSpace(rest[0])
    ensures WordLength(w + rest) == |w|
    ensures (w + rest)[..|w|] == w
    decreases |w|
  {
    if |w| > 1 {
      WordPrefix(w[1..], rest);
      assert (w + rest)[1..] == w[1..] + rest;
    } else {
      assert (w + rest)[1..] == rest;
    }
  }

  /** A non-empty whitespace-free word is one field. */
  lemma FieldsWord(w: string)
    requires |w| > 0 && NoSpace(w)
    ensures Fields(w) == [w]
  {
    WordPrefix(w, "");
    assert w + "" == w;
    assert w[|w|..] == "";
  }

  /** A run that stops before the end of `a` stops at the same place when
      more text follows. */
  lemma {:induction false} WordLengthExtend(a: string, t: string)
    requires WordLength(a) < |a|
    ensures WordLength(a + t) == WordLength(a)
    decreases |a|
  {
    if !IsSpace(a[0]) {
      WordLengthExtend(a[1..], t);
      assert (a + t)[1..] == a[1..] + t;
    }
  }

  /** A whitespace character separates fields: the fields of the text on
      either side of it, in order, are the fields of the whole. Together with
      `FieldsWord` this pins `str.split()` down to the maximal runs. */
  lemma {:induction false} FieldsSplitAtSpace(a: string, c: char, b: string)
    requires IsSpace(c)
    ensures Fields(a + [c] + b) == Fields(a) + Fields(b)
    decreases |a|
  {
    var s := a + [c] + b;
    if |a| == 0 {
      assert s == [c] + b;
      assert s[1..] == b;
    } else if IsSpace(a[0]) {
      assert s[1..] == a[1..] + [c] + b;
      FieldsSplitAtSpace(a[1..], c, b);
    } else if WordLength(a) < |a| {
      var k := WordLength(a);
      FieldsSplitAtSpace(a[k..], c, b);
      FieldsInnerWord(a, c, b);
    } else {
      FieldsWholeWord(a, c, b);
    }
  }

  /** The first word of `a` ends inside `a`: it is also the first field of
      the whole, and the rest follows. */
  lemma FieldsInnerWord(a: string, c: char, b: string)
    requires |a| > 0 && !IsSpace(a[0]) && WordLength(a) < |a|
    ensures Fields(a + [c] + b) == [a[..WordLength(a)]] + Fields(a[WordLength(a)..] + [c] + b)
    ensures Fields(a) == [a[..WordLength(a)]] + Fields(a[WordLength(a)..])
  {
    var s := a + [c] + b;
    var k := WordLength(a);
    WordLengthExtend(a, [c] + b);
    assert s == a + ([c] + b);
    assert s[..k] == a[..k];
    assert s[k..] == a[k..] + [c] + b;
  }

  /** `a` is one word, ended by the whitespace character. */
  lemma FieldsWholeWord(a: string, c: char, b: string)
    requires |a| > 0 && WordLength(a) == |a|
    requires IsSpace(c)
    ensures Fields(a + [c] + b) == Fields(a) + Fields(b)
  {
    var s := a + [c] + b;
    var k := |a|;
    assert NoSpace(a) by {
      if WordLength(a) == |a| {
        assert a[..k] == a;
      }
    }
    WordPrefix(a, [c] + b);
    FieldsWord(a);
    assert s == a + ([c] + b);
    assert s[k..] == [c] + b;
    assert s[k..][1..] == b;
  }

  // ---------------------------------------------------------------------
  // int() on a decimal token and its inverse str()
  // ---------------------------------------------------------------------

  predicate IsDigit(c: char)
  {
    '0' <= c <= '9'
  }

  predicate AllDigits(s: string)
  {
    forall k :: 0 <= k < |s| ==> IsDigit(s[k])
  }

  /** Value of a string of decimal digits, most significant first. */
  function DigitsValue(s: string): nat
    requires AllDigits(s)
  {
    if |s| == 0 then 0
    else DigitsValue(s[..|s| - 1]) * 10 + (s[|s| - 1] as int - '0' as int)
  }

  function DigitChar(d: nat): (c: char)
    requires d < 10
    ensures IsDigit(c) && c as int - '0' as int == d
  {
    ('0' as int + d) as char
  }

  /** `str(n)` for a natural number. */
  function ShowNat(n: nat): (s: string)
    ensures |s| > 0 && AllDigits(s)
  {
    if n < 10 then [DigitChar(n)] else ShowNat(n / 10) + [DigitChar(n % 10)]
  }

  /** `str(i)` for an integer. */
  function ShowInt(i: int): string
  {
    if i < 0 then "-" + ShowNat(-i) else ShowNat(i)
  }

  /** `int(s)` for a token without surrounding whitespace: an optional sign
      followed by at least one decimal digit; anything else is `None`
      (Python raises `ValueError`). */
  function ParseInt(s: string): (r: Option<int>)
    ensures r.Some? <==> (AllDigits(s) && |s| > 0) || (|s| > 1 && (s[0] == '-' || s[0] == '+') && AllDigits(s[1..]))
  {
    if |s| > 1 && s[0] == '-' && AllDigits(s[1..]) then Some(0 - DigitsValue(s[1..]) as int)
    else if |s| > 1 && s[0] == '+' && AllDigits(s[1..]) then Some(DigitsValue(s[1..]))
    else if |s| > 0 && AllDigits(s) then Some(DigitsValue(s))
    else None
  }

  lemma {:induction false} DigitsOfShow(n: nat)
    ensures DigitsValue(ShowNat(n)) == n
  {
    if n >= 10 {
      DigitsOfShow(n / 10);
      var s := ShowNat(n);
      assert s[..|s| - 1] == ShowNat(n / 10);
    }
  }

  /** `int(str(i)) == i`. */
  lemma ParseShow(i: int)
    ensures ParseInt(ShowInt(i)) == Some(i)
  {
    if i < 0 {
      DigitsOfShow(-i);
      assert ShowInt(i)[1..] == ShowNat(-i);
    } else {
      DigitsOfShow(i);
    }
  }

  // ---------------------------------------------------------------------
  // Python's ordering on strings (by code point, a proper prefix first)
  // ---------------------------------------------------------------------

  predicate StrLess(a: string, b: string)
    decreases |a|
  {
    if |a| == 0 then |b| > 0
    else if |b| == 0 then false
    else if a[0] < b[0] then true
    else if a[0] == b[0] then StrLess(a[1..], b[1..])
    else false
  }

  lemma {:induction false} StrLessIrreflexive(a: string)
    ensures !StrLess(a, a)
    decreases |a|
  {
    if |a| > 0 {
      StrLessIrreflexive(a[1..]);
    }
  }

  lemma {:induction false} StrLessTransitive(a: string, b: string, c: string)
    requires StrLess(a, b) && StrLess(b, c)
    ensures StrLess(a, c)
    decreases |a|
  {
    if |a| > 0 && a[0] == b[0] && b[0] == c[0] {
      StrLessTransitive(a[1..], b[1..], c[1..]);
    }
  }

  lemma {:induction false} StrLessTotal(a: string, b: string)
    requires a != b
    ensures StrLess(a, b) || StrLess(b, a)
    decreases |a|
  {
    if |a| > 0 && |b| > 0 && a[0] == b[0] {
      assert a == [a[0]] + a[1..];
      assert b == [b[0]] + b[1..];
      StrLessTotal(a[1..], b[1..]);
    }
  }

  /** Every non-empty finite set of strings has a least element. */
  lemma {:induction false} LeastExists(s: set<string>) returns (m: string)
    requires s != {}
    ensures m in s
    ensures forall x :: x in s && x != m ==> StrLess(m, x)
    decreases |s|
  {
    var y :| y in s;
    var rest := s - {y};
    if rest == {} {
      m := y;
      forall x | x in s
        ensures x == y
      {
        assert x == y || x in rest;
      }
    } else {
      var m' := LeastExists(rest);
      if StrLess(m', y) {
        m := m';
        forall x | x in s && x != m
          ensures StrLess(m, x)
        {
          if x != y {
            assert x in rest;
          }
        }
      } else {
        StrLessTotal(m', y);
        m := y;
        forall x | x in s && x != m
          ensures StrLess(m, x)
        {
          assert x in rest;
          if x != m' {
            StrLessTransitive(y, m', x);
          }
        }
      }
    }
  }
}
