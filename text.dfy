/**
  The string operations of Rust's standard library that the codec relies on,
  over `string` (a sequence of characters):

  - the search for a separator inside `split` and `lines` (IndexOf),
  - `str::split` with a one-character pattern (Split),
  - `[&str]::join` with a one-character separator (JoinWith),
  - `str::lines` (Lines),
  - `str::trim_start` (TrimStart),
  - `str::to_lowercase` restricted to ASCII letters (ToLower),
  - `Display` for unsigned integers (DecimalString).

  Each comes with the facts about it that the parser and serialiser proofs use.
 */
module Text {

  // ---------------------------------------------------------------------------
  // Searching for one character
  // ---------------------------------------------------------------------------

  /** Position of the first occurrence of `c` in `s`. */
  function IndexOf(s: string, c: char): (i: nat)
    requires c in s
    ensures i < |s| && s[i] == c && c !in s[..i]
  {
    if s[0] == c then 0
    else
      var j := IndexOf(s[1..], c);
      assert s[..j + 1] == [s[0]] + s[1..][..j];
      1 + j
  }

  /** `IndexOf` finds the first occurrence: any position of `c` with no `c` before it is the result. */
  lemma {:induction false} IndexOfUnique(s: string, c: char, j: nat)
    requires j < |s| && s[j] == c && c !in s[..j]
    ensures IndexOf(s, c) == j
  {
    if j > 0 {
      assert s[0] == s[..j][0];
      assert s[1..][..j - 1] == s[1..j];
      IndexOfUnique(s[1..], c, j - 1);
    }
  }

  /** The first occurrence of `c` in `a + [c] + b` is the one after `a` when `a` has none. */
  lemma IndexOfAfter(a: string, c: char, b: string)
    requires c !in a
    ensures c in a + [c] + b
    ensures IndexOf(a + [c] + b, c) == |a|
    ensures (a + [c] + b)[..|a|] == a && (a + [c] + b)[|a| + 1..] == b
  {
    var s := a + [c] + b;
    assert s[|a|] == c && s[..|a|] == a;
    IndexOfUnique(s, c, |a|);
  }

  // ---------------------------------------------------------------------------
  // split and join on one character
  // ---------------------------------------------------------------------------

  /**
    Rust's `s.split(sep)` for a one-character pattern, collected: the maximal
    pieces between separators, empty pieces included, so there is always one
    more piece than there are separators.
   */
  function Split(s: string, sep: char): (parts: seq<string>)
    ensures |parts| >= 1
    ensures forall k | 0 <= k < |parts| :: sep !in parts[k]
    decreases |s|
  {
    if sep !in s then [s]
    else
      var i := IndexOf(s, sep);
      [s[..i]] + Split(s[i + 1..], sep)
  }

  /** There is one more piece than there are separators. */
  lemma {:induction false} SplitCount(s: string, sep: char)
    ensures |Split(s, sep)| == Count(s, sep) + 1
    decreases |s|
  {
    if sep !in s {
      CountAbsent(s, sep);
    } else {
      var i := IndexOf(s, sep);
      CountSplit(s, sep, i);
      SplitCount(s[i + 1..], sep);
    }
  }

  /** A text splits into two or more pieces exactly when it holds the separator. */
  lemma SplitSeveral(s: string, sep: char)
    ensures |Split(s, sep)| >= 2 <==> sep in s
  {
  }

  /** Number of occurrences of `c` in `s`. */
  function Count(s: string, c: char): nat
  {
    if s == [] then 0 else (if s[0] == c then 1 else 0) + Count(s[1..], c)
  }

  lemma {:induction false} CountAbsent(s: string, c: char)
    requires c !in s
    ensures Count(s, c) == 0
  {
    if s != [] {
      CountAbsent(s[1..], c);
    }
  }

  lemma {:induction false} CountSplit(s: string, c: char, i: nat)
    requires i < |s| && s[i] == c && c !in s[..i]
    ensures Count(s, c) == 1 + Count(s[i + 1..], c)
  {
    if i > 0 {
      assert s[0] == s[..i][0];
      assert s[1..][..i - 1] == s[1..i];
      CountSplit(s[1..], c, i - 1);
      assert s[1..][i..] == s[i + 1..];
    } else {
      assert s[1..] == s[i + 1..];
    }
  }

  /** Rust's `parts.join(sep)` for a one-character separator. */
  function JoinWith(parts: seq<string>, sep: char): string
  {
    if |parts| == 0 then []
    else if |parts| == 1 then parts[0]
    else parts[0] + [sep] + JoinWith(parts[1..], sep)
  }

  /** The sum of the lengths of the pieces. */
  function TotalLength(parts: seq<string>): nat
  {
    if parts == [] then 0 else |parts[0]| + TotalLength(parts[1..])
  }

  /**
    A join holds the pieces in order with one separator between neighbours:
    its length is the pieces' total length plus one per gap, and it starts with
    the first piece (`JoinSplit` and `SplitJoin` give the inverse).
   */
  lemma {:induction false} JoinWithLength(parts: seq<string>, sep: char)
    requires |parts| >= 1
    ensures |JoinWith(parts, sep)| == TotalLength(parts) + |parts| - 1
    ensures |JoinWith(parts, sep)| >= |parts[0]| && JoinWith(parts, sep)[..|parts[0]|] == parts[0]
    decreases |parts|
  {
    if |parts| > 1 {
      JoinWithLength(parts[1..], sep);
    }
  }

  lemma JoinTwo(a: string, b: string, sep: char)
    ensures JoinWith([a, b], sep) == a + [sep] + b
  {
    assert [a, b][1..] == [b];
  }

  lemma JoinThree(a: string, b: string, c: string, sep: char)
    ensures JoinWith([a, b, c], sep) == a + [sep] + b + [sep] + c
  {
    assert [a, b, c][1..] == [b, c];
    JoinTwo(b, c, sep);
  }

  /** Joining the pieces of a split with the same separator gives back the text. */
  lemma {:induction false} JoinSplit(s: string, sep: char)
    ensures JoinWith(Split(s, sep), sep) == s
    decreases |s|
  {
    if sep in s {
      var i := IndexOf(s, sep);
      var rest := s[i + 1..];
      JoinSplit(rest, sep);
      assert Split(s, sep)[1..] == Split(rest, sep);
      assert s == s[..i] + [sep] + rest;
    }
  }

  /** Splitting a join of separator-free pieces gives back the pieces. */
  lemma {:induction false} SplitJoin(parts: seq<string>, sep: char)
    requires |parts| >= 1
    requires forall k | 0 <= k < |parts| :: sep !in parts[k]
    ensures Split(JoinWith(parts, sep), sep) == parts
  {
    if |parts| > 1 {
      var rest := JoinWith(parts[1..], sep);
      IndexOfAfter(parts[0], sep, rest);
      SplitJoin(parts[1..], sep);
      assert Split(JoinWith(parts, sep), sep) == [parts[0]] + Split(rest, sep);
    }
  }

  /** Splitting `x + [c] + rest`: the piece `x`, then the pieces of `rest`. */
  lemma SplitAfterFirst(x: string, c: char, rest: string)
    requires c !in x
    ensures Split(x + [c] + rest, c) == [x] + Split(rest, c)
  {
    IndexOfAfter(x, c, rest);
  }

  /**
    The first two pieces of `x + [c] + y + tail`, where `tail` is empty or
    starts with the separator, are `x` and `y`.
   */
  lemma SplitFirstTwo(x: string, y: string, tail: string, c: char)
    requires c !in x && c !in y
    requires tail == [] || tail[0] == c
    ensures |Split(x + [c] + y + tail, c)| >= 2
    ensures Split(x + [c] + y + tail, c)[0] == x
    ensures Split(x + [c] + y + tail, c)[1] == y
  {
    var rest := y + tail;
    assert x + [c] + y + tail == x + [c] + rest;
    SplitAfterFirst(x, c, rest);
    SplitHead(y, tail, c);
  }

  /**
    The first three pieces of `x + [c] + y + [c] + z + tail`, where `tail` is
    empty or starts with the separator, are `x`, `y` and `z`.
   */
  lemma SplitFirstThree(x: string, y: string, z: string, tail: string, c: char)
    requires c !in x && c !in y && c !in z
    requires tail == [] || tail[0] == c
    ensures |Split(x + [c] + y + [c] + z + tail, c)| >= 3
    ensures Split(x + [c] + y + [c] + z + tail, c)[0] == x
    ensures Split(x + [c] + y + [c] + z + tail, c)[1] == y
    ensures Split(x + [c] + y + [c] + z + tail, c)[2] == z
  {
    var rest := y + [c] + z + tail;
    assert x + [c] + y + [c] + z + tail == x + [c] + rest;
    SplitAfterFirst(x, c, rest);
    SplitFirstTwo(y, z, tail, c);
  }

  /** The first piece of `y + tail`, where `tail` is empty or starts with the separator, is `y`. */
  lemma SplitHead(y: string, tail: string, c: char)
    requires c !in y
    requires tail == [] || tail[0] == c
    ensures Split(y + tail, c)[0] == y
  {
    if tail == [] {
      assert y + tail == y;
    } else {
      assert y + tail == y + [c] + tail[1..];
      SplitAfterFirst(y, c, tail[1..]);
    }
  }

  // ---------------------------------------------------------------------------
  // str::lines
  // ---------------------------------------------------------------------------

  /** A line with one trailing carriage return removed, if it has one. */
  function StripCR(l: string): string
  {
    if |l| > 0 && l[|l| - 1] == '\r' then l[..|l| - 1] else l
  }

  /**
    Rust's `s.lines()`, collected: the text is cut after every line feed; each
    piece that ended with a line feed loses it and then one carriage return
    before it, if present; a final line feed does not start a further line, and
    the empty text has no lines.
   */
  function Lines(s: string): (ls: seq<string>)
    ensures forall k | 0 <= k < |ls| :: '\n' !in ls[k]
    ensures s != [] <==> ls != []
    decreases |s|
  {
    if s == [] then []
    else if '\n' !in s then [s]
    else
      var i := IndexOf(s, '\n');
      [StripCR(s[..i])] + Lines(s[i + 1..])
  }

  /** The first line of a text that starts with a clean, non-empty `p` starts with `p`. */
  lemma FirstLinePrefix(p: string, u: string)
    requires p != [] && CleanLine(p)
    ensures Lines(p + u) != []
    ensures |Lines(p + u)[0]| >= |p| && Lines(p + u)[0][..|p|] == p
  {
    var s := p + u;
    assert s[..|p|] == p;
    if '\n' in s {
      var j := IndexOf(s, '\n');
      FeedAfterPrefix(s, p, j);
      StripCRKeepsPrefix(s[..j], p);
    }
  }

  lemma FeedAfterPrefix(s: string, p: string, j: nat)
    requires |s| >= |p| && s[..|p|] == p && '\n' !in p
    requires j < |s| && s[j] == '\n'
    ensures j >= |p|
  {
    assert forall k | 0 <= k < |p| :: s[k] == p[k];
  }

  lemma StripCRKeepsPrefix(x: string, p: string)
    requires p != [] && CleanLine(p)
    requires |x| >= |p| && x[..|p|] == p
    ensures |StripCR(x)| >= |p| && StripCR(x)[..|p|] == p
  {
    if |x| == |p| {
      assert x == p;
    } else if x[|x| - 1] == '\r' {
      assert x[..|x| - 1][..|p|] == x[..|p|];
    }
  }

  /** A line that `Lines` reproduces exactly: no line feed, no trailing carriage return. */
  predicate CleanLine(l: string)
  {
    '\n' !in l && (l == [] || l[|l| - 1] != '\r')
  }

  /** Each line followed by a line feed: the text whose lines are `ls`. */
  function Terminated(ls: seq<string>): string
  {
    if ls == [] then [] else ls[0] + "\n" + Terminated(ls[1..])
  }

  lemma {:induction false} TerminatedAppend(a: seq<string>, b: seq<string>)
    ensures Terminated(a + b) == Terminated(a) + Terminated(b)
  {
    if a != [] {
      assert (a + b)[1..] == a[1..] + b;
      TerminatedAppend(a[1..], b);
    } else {
      assert a + b == b;
    }
  }

  lemma ConsAppend<T>(s: seq<T>, r: seq<T>)
    requires |s| >= 1
    ensures [s[0]] + (s[1..] + r) == s + r
  {
  }

  /** Joining with line feeds: every line but the last is terminated, and the last follows. */
  lemma {:induction false} JoinAsTerminated(ls: seq<string>)
    requires |ls| >= 1
    ensures JoinWith(ls, '\n') == Terminated(ls[..|ls| - 1]) + ls[|ls| - 1]
  {
    if |ls| == 1 {
      assert ls[..0] == [];
      assert Terminated([]) + ls[0] == ls[0];
    } else {
      var n := |ls| - 1;
      var init, last := ls[..n], ls[n];
      JoinAsTerminated(ls[1..]);
      assert ls[1..][..n - 1] == init[1..];
      assert ls[1..][n - 1] == last;
      assert Terminated(init) == init[0] + "\n" + Terminated(init[1..]);
      assert JoinWith(ls, '\n') == ls[0] + ['\n'] + (Terminated(init[1..]) + last);
    }
  }

  /** Joining with line feeds and adding a final one terminates every line. */
  lemma JoinThenNewline(ls: seq<string>)
    requires |ls| >= 1
    ensures JoinWith(ls, '\n') + "\n" == Terminated(ls)
  {
    JoinAsTerminated(ls);
    TerminatedSnoc(ls);
  }

  /** The terminated text of `ls`: that of all but the last line, then the last line and a line feed. */
  lemma TerminatedSnoc(ls: seq<string>)
    requires |ls| >= 1
    ensures Terminated(ls) == Terminated(ls[..|ls| - 1]) + ls[|ls| - 1] + "\n"
  {
    var n := |ls| - 1;
    var init, last := ls[..n], ls[n];
    TerminatedAppend(init, [last]);
    assert init + [last] == ls;
    assert Terminated([last]) == last + "\n";
    AppendAssoc(Terminated(init), last, "\n");
  }

  /** Appending keeps a prefix. */
  lemma PrefixKept(a: string, b: string, p: string)
    requires |a| >= |p| && a[..|p|] == p
    ensures |a + b| >= |p| && (a + b)[..|p|] == p
  {
    assert (a + b)[..|p|] == a[..|p|];
  }

  lemma AppendAssoc<T>(a: seq<T>, b: seq<T>, c: seq<T>)
    ensures (a + b) + c == a + (b + c)
  {
  }

  /** The lines of `x + "\n" + rest` when `x` has no line feed: `x` as a line, then the lines of `rest`. */
  lemma LinesCons(x: string, rest: string)
    requires '\n' !in x
    ensures Lines(x + ['\n'] + rest) == [StripCR(x)] + Lines(rest)
  {
    IndexOfAfter(x, '\n', rest);
  }

  /**
    `lines` reads back every clean line of a terminated text, in order, and
    then the lines of whatever text follows it.
   */
  lemma {:induction false} LinesOfTerminated(ls: seq<string>, rest: string)
    requires forall k | 0 <= k < |ls| :: CleanLine(ls[k])
    ensures Lines(Terminated(ls) + rest) == ls + Lines(rest)
  {
    if ls == [] {
      assert Terminated(ls) + rest == rest;
    } else {
      var after := Terminated(ls[1..]) + rest;
      assert Terminated(ls) + rest == ls[0] + ['\n'] + after;
      LinesCons(ls[0], after);
      LinesOfTerminated(ls[1..], rest);
      assert StripCR(ls[0]) == ls[0];
      ConsAppend(ls, Lines(rest));
    }
  }

  /** `lines` reads back every clean line of a terminated text. */
  lemma LinesOfTerminatedOnly(ls: seq<string>)
    requires forall k | 0 <= k < |ls| :: CleanLine(ls[k])
    ensures Lines(Terminated(ls)) == ls
  {
    LinesOfTerminated(ls, []);
    assert Terminated(ls) + [] == Terminated(ls);
    assert ls + Lines([]) == ls;
  }

  /** A terminated text followed by one more clean, non-empty line without a line feed. */
  lemma LinesOfTerminatedThenLine(s: string, ls: seq<string>)
    requires |ls| >= 1 && ls[|ls| - 1] != []
    requires forall k | 0 <= k < |ls| :: CleanLine(ls[k])
    requires s == Terminated(ls[..|ls| - 1]) + ls[|ls| - 1]
    ensures Lines(s) == ls
  {
    var n := |ls| - 1;
    var init, last := ls[..n], ls[n];
    assert forall k | 0 <= k < n :: init[k] == ls[k];
    LinesOfTerminated(init, last);
    assert Lines(last) == [last];
    assert init + [last] == ls;
  }

  /**
    Joining the lines of a text with line feeds gives back the text when it has
    no carriage return and does not end with a line feed.
   */
  lemma {:induction false} JoinLines(t: string)
    requires '\r' !in t
    requires t == [] || t[|t| - 1] != '\n'
    ensures JoinWith(Lines(t), '\n') == t
    decreases |t|
  {
    if '\n' in t {
      var i := IndexOf(t, '\n');
      var rest := t[i + 1..];
      assert rest != [];
      assert '\r' !in t[..i];
      assert StripCR(t[..i]) == t[..i];
      JoinLines(rest);
      assert t == t[..i] + ['\n'] + rest;
    }
  }

  /** Each line followed by a carriage return and a line feed. */
  function CrlfTerminated(ls: seq<string>): string
  {
    if ls == [] then [] else ls[0] + "\r\n" + CrlfTerminated(ls[1..])
  }

  /**
    `lines` treats a carriage return before a line feed as part of the line
    terminator: clean lines ended by `\r\n` read back exactly, in order.
   */
  lemma {:induction false} LinesOfCrlfTerminated(ls: seq<string>, rest: string)
    requires forall k | 0 <= k < |ls| :: CleanLine(ls[k])
    ensures Lines(CrlfTerminated(ls) + rest) == ls + Lines(rest)
  {
    if ls == [] {
      assert CrlfTerminated(ls) + rest == rest;
    } else {
      var after := CrlfTerminated(ls[1..]) + rest;
      var x := ls[0] + "\r";
      assert CrlfTerminated(ls) + rest == x + ['\n'] + after;
      LinesCons(x, after);
      assert StripCR(x) == ls[0];
      LinesOfCrlfTerminated(ls[1..], rest);
      ConsAppend(ls, Lines(rest));
    }
  }

  /**
    A final line feed adds no line: the text `t + "\n"` has the lines of `t`
    when `t` is non-empty, has no carriage return and does not already end with
    a line feed.
   */
  lemma {:induction false} LinesDropFinalFeed(t: string)
    requires t != [] && '\r' !in t && t[|t| - 1] != '\n'
    ensures Lines(t + "\n") == Lines(t)
    decreases |t|
  {
    if '\n' in t {
      var i := IndexOf(t, '\n');
      var rest := t[i + 1..];
      assert t == t[..i] + ['\n'] + rest;
      LinesDropFinalFeed(rest);
      FinalFeedAfterLine(t, t[..i], rest);
    } else {
      FinalFeedOneLine(t);
    }
  }

  lemma FinalFeedOneLine(t: string)
    requires t != [] && '\r' !in t && '\n' !in t
    ensures Lines(t + "\n") == Lines(t)
  {
    assert t + "\n" == t + ['\n'] + [];
    LinesCons(t, []);
    assert StripCR(t) == t;
  }

  lemma FinalFeedAfterLine(t: string, x: string, rest: string)
    requires '\n' !in x && t == x + ['\n'] + rest
    requires Lines(rest + "\n") == Lines(rest)
    ensures Lines(t + "\n") == Lines(t)
  {
    assert t + "\n" == x + ['\n'] + (rest + "\n");
    LinesCons(x, rest + "\n");
    LinesCons(x, rest);
  }

  /**
    Joining the lines of a body followed by one line feed gives back the body
    without that line feed: the final terminator is lost.
   */
  lemma JoinLinesFinalFeed(t: string)
    requires '\r' !in t && (t == [] || t[|t| - 1] != '\n')
    ensures JoinWith(Lines(t + "\n"), '\n') == t
  {
    if t == [] {
      assert t + "\n" == [] + ['\n'] + [];
      LinesCons([], []);
    } else {
      LinesDropFinalFeed(t);
    }
    JoinLines(t);
  }

  // ---------------------------------------------------------------------------
  // str::trim_start
  // ---------------------------------------------------------------------------

  /** Rust's `char::is_whitespace`: the Unicode White_Space code points. */
  predicate IsWhitespace(c: char)
  {
    || ('\t' <= c <= '\r')
    || c == ' '
    || c == '\U{0085}'
    || c == '\U{00A0}'
    || c == '\U{1680}'
    || ('\U{2000}' <= c <= '\U{200A}')
    || c == '\U{2028}'
    || c == '\U{2029}'
    || c == '\U{202F}'
    || c == '\U{205F}'
    || c == '\U{3000}'
  }

  /** Length of the leading run of whitespace in `s`. */
  function LeadingWhitespace(s: string): (n: nat)
    ensures n <= |s|
    ensures forall k | 0 <= k < n :: IsWhitespace(s[k])
    ensures n == |s| || !IsWhitespace(s[n])
  {
    if s != [] && IsWhitespace(s[0]) then 1 + LeadingWhitespace(s[1..]) else 0
  }

  /** Rust's `s.trim_start()`: `s` without its leading whitespace. */
  function TrimStart(s: string): string
  {
    s[LeadingWhitespace(s)..]
  }

  /**
    `trim_start` leaves the suffix of `s` after every leading whitespace
    character: what it drops is all whitespace, and what it keeps does not start
    with whitespace.
   */
  lemma TrimStartSpec(s: string)
    ensures |TrimStart(s)| <= |s| && TrimStart(s) == s[|s| - |TrimStart(s)|..]
    ensures forall k | 0 <= k < |s| - |TrimStart(s)| :: IsWhitespace(s[k])
    ensures TrimStart(s) == [] || !IsWhitespace(TrimStart(s)[0])
  {
    var n := LeadingWhitespace(s);
    assert |TrimStart(s)| == |s| - n;
  }

  /** One leading space before text that starts with no whitespace is all that is trimmed. */
  lemma TrimOneSpace(v: string)
    requires v == [] || !IsWhitespace(v[0])
    ensures TrimStart(" " + v) == v
  {
    assert (" " + v)[1..] == v;
  }

  // ---------------------------------------------------------------------------
  // str::to_lowercase, on ASCII letters
  // ---------------------------------------------------------------------------

  /** Lower-case form of an ASCII capital letter; every other character is kept. */
  function Lower(c: char): char
  {
    if 'A' <= c <= 'Z' then (c as int + 32) as char else c
  }

  /** `s.to_lowercase()` on ASCII letters: character by character. */
  function ToLower(s: string): (r: string)
    ensures |r| == |s|
    ensures forall k | 0 <= k < |s| :: r[k] == Lower(s[k])
  {
    if s == [] then [] else [Lower(s[0])] + ToLower(s[1..])
  }

  // ---------------------------------------------------------------------------
  // Display for unsigned integers
  // ---------------------------------------------------------------------------

  predicate IsDigit(c: char)
  {
    '0' <= c <= '9'
  }

  function DigitChar(d: nat): char
    requires d < 10
  {
    ('0' as int + d) as char
  }

  /** The decimal text of `n`, without leading zeros, as `{}` formats an unsigned integer. */
  function DecimalString(n: nat): (s: string)
    ensures |s| >= 1
    ensures forall k | 0 <= k < |s| :: IsDigit(s[k])
    ensures |s| > 1 ==> s[0] != '0'
  {
    if n < 10 then [DigitChar(n)] else DecimalString(n / 10) + [DigitChar(n % 10)]
  }

  /** The number a string of decimal digits denotes. */
  function DecimalValue(s: string): nat
    requires forall k | 0 <= k < |s| :: IsDigit(s[k])
  {
    if s == [] then 0
    else
      assert IsDigit(s[|s| - 1]);
      DecimalValue(s[..|s| - 1]) * 10 + (s[|s| - 1] as int - '0' as int)
  }

  /** Reading back the decimal text of `n` gives `n`. */
  lemma {:induction false} DecimalRoundTrip(n: nat)
    ensures DecimalValue(DecimalString(n)) == n
  {
    var s := DecimalString(n);
    if n >= 10 {
      DecimalRoundTrip(n / 10);
      assert s[..|s| - 1] == DecimalString(n / 10);
    }
  }
}
