/** The JavaScript string operations the core relies on: `trim`,
    `toLowerCase`, `split` on one character, and `split(/\r?\n/)`. */
module Text {

  /** The characters `String.prototype.trim` removes: the WhiteSpace and
      LineTerminator code points of ECMAScript (sections 12.2 and 12.3),
      written as ranges of code points. */
  predicate IsWhite(c: char)
  {
    if c < '\U{A0}' then '\t' <= c <= '\r' || c == ' '
    else
      || c == '\U{A0}' || c == '\U{1680}' || ('\U{2000}' <= c <= '\U{200A}')
      || ('\U{2028}' <= c <= '\U{2029}') || c == '\U{202F}' || c == '\U{205F}'
      || c == '\U{3000}' || c == '\U{FEFF}'
  }

  predicate IsBlank(s: string)
  {
    forall i :: 0 <= i < |s| ==> IsWhite(s[i])
  }

  /** The first index at or after `i` whose character is not white space,
      or `|s|` when there is none. */
  function SkipWhite(s: string, i: nat): (j: nat)
    requires i <= |s|
    ensures i <= j <= |s|
    decreases |s| - i
  {
    if i < |s| && IsWhite(s[i]) then SkipWhite(s, i + 1) else i
  }

  /** The end of `s[lo..hi]` once the white space at its end is dropped. */
  function SkipWhiteBack(s: string, lo: nat, hi: nat): (k: nat)
    requires lo <= hi <= |s|
    ensures lo <= k <= hi
    decreases hi
  {
    if lo < hi && IsWhite(s[hi - 1]) then SkipWhiteBack(s, lo, hi - 1) else hi
  }

  /** `s.trim()`: the white space at both ends dropped. */
  function Trim(s: string): (r: string)
    ensures |r| <= |s|
  {
    var a := SkipWhite(s, 0);
    s[a..SkipWhiteBack(s, a, |s|)]
  }

  lemma {:induction false} SkipWhiteSkipsBlank(s: string, i: nat)
    requires i <= |s|
    ensures var j := SkipWhite(s, i);
      (j < |s| ==> !IsWhite(s[j])) && forall k :: i <= k < j ==> IsWhite(s[k])
    decreases |s| - i
  {
    if i < |s| && IsWhite(s[i]) {
      SkipWhiteSkipsBlank(s, i + 1);
    }
  }

  lemma {:induction false} SkipWhiteBackSkipsBlank(s: string, lo: nat, hi: nat)
    requires lo <= hi <= |s|
    ensures var k := SkipWhiteBack(s, lo, hi);
      (k > lo ==> !IsWhite(s[k - 1])) && forall m :: k <= m < hi ==> IsWhite(s[m])
    decreases hi
  {
    if lo < hi && IsWhite(s[hi - 1]) {
      SkipWhiteBackSkipsBlank(s, lo, hi - 1);
    }
  }

  /** Trimming keeps a middle part of `s` that neither starts nor ends with
      white space, drops only white space around it, and empties exactly
      the texts that are all white space. */
  lemma TrimDropsBlank(s: string)
    ensures var a, r := SkipWhite(s, 0), Trim(s);
      && a + |r| <= |s| && r == s[a..a + |r|]
      && (r != [] ==> !IsWhite(r[0]) && !IsWhite(r[|r| - 1]))
      && (forall k :: 0 <= k < a ==> IsWhite(s[k]))
      && (forall k :: a + |r| <= k < |s| ==> IsWhite(s[k]))
    ensures Trim(s) == [] <==> IsBlank(s)
  {
    var a := SkipWhite(s, 0);
    var b := SkipWhiteBack(s, a, |s|);
    SkipWhiteSkipsBlank(s, 0);
    SkipWhiteBackSkipsBlank(s, a, |s|);
    if b == a {
      assert a == |s|;
    } else {
      assert !IsWhite(s[a]);
    }
  }

  lemma TrimOfUnpadded(s: string)
    requires s != [] ==> !IsWhite(s[0]) && !IsWhite(s[|s| - 1])
    ensures Trim(s) == s
  {
    assert SkipWhite(s, 0) == 0;
    assert SkipWhiteBack(s, 0, |s|) == |s|;
    assert s[0..|s|] == s;
  }

  lemma TrimIdempotent(s: string)
    ensures Trim(Trim(s)) == Trim(s)
  {
    TrimDropsBlank(s);
    TrimOfUnpadded(Trim(s));
  }

  /** ASCII lower-casing. `toLowerCase` maps more of Unicode, but no other
      code point lowers to a letter of "true" or ".csv", the only strings the
      core compares lowered text with. */
  function LowerChar(c: char): char
  {
    if 'A' <= c <= 'Z' then (c as int + 32) as char else c
  }

  function ToLower(s: string): (r: string)
    ensures |r| == |s|
  {
    seq(|s|, i requires 0 <= i < |s| => LowerChar(s[i]))
  }

  predicate IsLowerCase(s: string)
  {
    forall i :: 0 <= i < |s| ==> !('A' <= s[i] <= 'Z')
  }

  lemma LowerCaseFixed(s: string)
    requires IsLowerCase(s)
    ensures ToLower(s) == s
  {
  }

  /** The parts joined back with the separator in between. */
  function Join(parts: seq<string>, sep: char): string
    requires |parts| >= 1
  {
    if |parts| == 1 then parts[0] else parts[0] + [sep] + Join(parts[1..], sep)
  }

  function Count(s: string, c: char): nat
  {
    if s == [] then 0 else (if s[0] == c then 1 else 0) + Count(s[1..], c)
  }

  /** `s.split(sep)` for a one-character separator: there is always at least
      one part, no part holds the separator, there is one part more than
      there are separators, and joining the parts gives `s` back. */
  function Split(s: string, sep: char): (parts: seq<string>)
    ensures |parts| == Count(s, sep) + 1
    ensures forall k :: 0 <= k < |parts| ==> sep !in parts[k]
    ensures Join(parts, sep) == s
  {
    if s == [] then [""]
    else if s[0] == sep then [""] + Split(s[1..], sep)
    else
      var rest := Split(s[1..], sep);
      JoinConsFirst(s[0], rest, sep);
      [[s[0]] + rest[0]] + rest[1..]
  }

  lemma JoinConsFirst(c: char, parts: seq<string>, sep: char)
    requires |parts| >= 1
    ensures Join([[c] + parts[0]] + parts[1..], sep) == [c] + Join(parts, sep)
  {
    var q := [[c] + parts[0]] + parts[1..];
    if |parts| > 1 {
      assert q[1..] == parts[1..];
    }
  }

  lemma {:induction false} JoinAppend(a: seq<string>, b: seq<string>, sep: char)
    requires |a| >= 1 && |b| >= 1
    ensures Join(a + b, sep) == Join(a, sep) + [sep] + Join(b, sep)
  {
    if |a| == 1 {
      assert (a + b)[1..] == b;
    } else {
      assert (a + b)[1..] == a[1..] + b;
      JoinAppend(a[1..], b, sep);
    }
  }

  /** Splitting undoes joining, provided no part holds the separator. */
  lemma {:induction false} SplitJoin(parts: seq<string>, sep: char)
    requires |parts| >= 1
    requires forall k :: 0 <= k < |parts| ==> sep !in parts[k]
    ensures Split(Join(parts, sep), sep) == parts
  {
    if |parts| == 1 {
      SplitNoSep(parts[0], sep);
    } else {
      SplitJoin(parts[1..], sep);
      SplitAfterPart(parts[0], Join(parts[1..], sep), sep);
      assert [parts[0]] + parts[1..] == parts;
    }
  }

  lemma {:induction false} SplitNoSep(s: string, sep: char)
    requires sep !in s
    ensures Split(s, sep) == [s]
  {
    if s != [] {
      assert sep !in s[1..] by {
        forall k | 0 <= k < |s| - 1 ensures s[1..][k] != sep { assert s[1..][k] == s[k + 1]; }
      }
      SplitNoSep(s[1..], sep);
    }
  }

  lemma {:induction false} SplitAfterPart(p: string, t: string, sep: char)
    requires sep !in p
    ensures Split(p + [sep] + t, sep) == [p] + Split(t, sep)
  {
    if p == [] {
      assert p + [sep] + t == [sep] + t;
      assert ([sep] + t)[1..] == t;
    } else {
      var s := p + [sep] + t;
      assert s[0] == p[0];
      assert s[1..] == p[1..] + [sep] + t;
      assert sep !in p[1..] by {
        forall k | 0 <= k < |p| - 1 ensures p[1..][k] != sep { assert p[1..][k] == p[k + 1]; }
      }
      SplitAfterPart(p[1..], t, sep);
      assert [p[0]] + p[1..] == p;
    }
  }

  /** A separator between two texts splits them independently. */
  lemma SplitConcat(x: string, y: string, sep: char)
    ensures Split(x + [sep] + y, sep) == Split(x, sep) + Split(y, sep)
  {
    var a, b := Split(x, sep), Split(y, sep);
    JoinAppend(a, b, sep);
    SplitJoin(a + b, sep);
  }

  /** Removes one carriage return at the end, if there is one. */
  function DropCR(p: string): string
  {
    if |p| > 0 && p[|p| - 1] == '\r' then p[..|p| - 1] else p
  }

  /** `text.split(/\r?\n/)`: the pieces between line feeds, where a piece
      that is followed by a line feed loses one carriage return at its end
      (that return belongs to the separator); the last piece keeps it. */
  function SplitLines(text: string): (lines: seq<string>)
    ensures |lines| == Count(text, '\n') + 1
  {
    DropSeparatorCRs(Split(text, '\n'))
  }

  /** DropCR on every piece but the last. */
  function DropSeparatorCRs(pieces: seq<string>): (r: seq<string>)
    requires |pieces| >= 1
    ensures |r| == |pieces|
  {
    if |pieces| == 1 then pieces else [DropCR(pieces[0])] + DropSeparatorCRs(pieces[1..])
  }

  function DropAllCRs(pieces: seq<string>): (r: seq<string>)
    ensures |r| == |pieces|
  {
    if pieces == [] then [] else [DropCR(pieces[0])] + DropAllCRs(pieces[1..])
  }

  lemma {:induction false} DropSeparatorCRsAppend(a: seq<string>, b: seq<string>)
    requires |b| >= 1
    ensures DropSeparatorCRs(a + b) == DropAllCRs(a) + DropSeparatorCRs(b)
  {
    if a == [] {
      assert a + b == b;
    } else {
      assert (a + b)[1..] == a[1..] + b;
      DropSeparatorCRsAppend(a[1..], b);
    }
  }

  /** A line feed between two texts splits their lines independently; the
      text before it loses a final carriage return. */
  lemma SplitLinesConcat(x: string, y: string)
    ensures SplitLines(x + ['\n'] + y) == DropAllCRs(Split(x, '\n')) + SplitLines(y)
  {
    SplitConcat(x, y, '\n');
    DropSeparatorCRsAppend(Split(x, '\n'), Split(y, '\n'));
  }

  /** A first line without line feed and without a trailing carriage
      return comes out whole. */
  lemma SplitLinesLine(x: string, y: string)
    requires '\n' !in x && (x == [] || x[|x| - 1] != '\r')
    ensures SplitLines(x + ['\n'] + y) == [x] + SplitLines(y)
  {
    SplitLinesConcat(x, y);
    SplitNoSep(x, '\n');
    assert DropAllCRs([x]) == [x];
  }

  /** `.filter((l) => l.length > 0)`: keeps the non-empty lines, in order. */
  function NonEmpty(lines: seq<string>): (r: seq<string>)
    ensures forall k :: 0 <= k < |r| ==> r[k] != []
    ensures forall l :: l in r <==> l in lines && l != []
    ensures |r| <= |lines|
  {
    if lines == [] then []
    else if lines[0] == [] then NonEmpty(lines[1..])
    else [lines[0]] + NonEmpty(lines[1..])
  }

  lemma {:induction false} NonEmptyAppend(a: seq<string>, b: seq<string>)
    ensures NonEmpty(a + b) == NonEmpty(a) + NonEmpty(b)
  {
    if a == [] {
      assert a + b == b;
    } else {
      assert (a + b)[1..] == a[1..] + b;
      NonEmptyAppend(a[1..], b);
    }
  }
}
