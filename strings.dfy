/**
 * The handful of Python string built-ins the OCR helpers rely on, written out:
 * `str.replace`, `str.split`, `str.join`, `str(int)` and the file-name stem
 * `name.split('.')[0]`.  Each is given with the facts the other modules need.
 */
module Strings {

  /** `p` occurs in `s` starting at position `i`. */
  predicate OccursAt(s: string, p: string, i: nat) {
    i + |p| <= |s| && s[i..i + |p|] == p
  }

  /** `p` occurs somewhere in `s`. */
  ghost predicate Occurs(s: string, p: string) {
    exists i: nat :: OccursAt(s, p, i)
  }

  /** Python's `s.replace(pat, rep)` for a non-empty pattern: every
      non-overlapping occurrence, scanned left to right, is replaced. */
  function ReplaceAll(s: string, pat: string, rep: string): string
    requires |pat| > 0
    decreases |s|
  {
    if |s| < |pat| then s
    else if s[..|pat|] == pat then rep + ReplaceAll(s[|pat|..], pat, rep)
    else [s[0]] + ReplaceAll(s[1..], pat, rep)
  }

  /** Python's `s.split(sep)` for a non-empty separator. */
  function Split(s: string, sep: string): (parts: seq<string>)
    requires |sep| > 0
    ensures |parts| >= 1
    decreases |s|
  {
    if |s| < |sep| then [s]
    else if s[..|sep|] == sep then [""] + Split(s[|sep|..], sep)
    else
      var rest := Split(s[1..], sep);
      [[s[0]] + rest[0]] + rest[1..]
  }

  /** Python's `sep.join(parts)`. */
  function Join(parts: seq<string>, sep: string): string
    decreases |parts|
  {
    if |parts| == 0 then ""
    else if |parts| == 1 then parts[0]
    else parts[0] + sep + Join(parts[1..], sep)
  }

  /** Python's `"".join(parts)`. */
  function Concat(parts: seq<string>): string
    decreases |parts|
  {
    if |parts| == 0 then "" else parts[0] + Concat(parts[1..])
  }

  /** Each string followed by a newline, as in `json.dumps(entry) + "\n"`. */
  function Terminated(lines: seq<string>): seq<string> {
    seq(|lines|, k requires 0 <= k < |lines| => lines[k] + "\n")
  }

  /** `[l0, "", l1, "", ..., ln-1, ""]`: lines each followed by an empty line. */
  function Interleaved(lines: seq<string>): seq<string>
    decreases |lines|
  {
    if |lines| == 0 then [] else [lines[0], ""] + Interleaved(lines[1..])
  }

  /** The text before the first `.`, i.e. Python's `s.split('.')[0]`. */
  function Stem(s: string): (r: string)
    ensures '.' !in r
    ensures r <= s
    ensures '.' !in s ==> r == s
    ensures |r| < |s| ==> s[|r|] == '.'
    decreases |s|
  {
    if |s| == 0 || s[0] == '.' then "" else [s[0]] + Stem(s[1..])
  }

  predicate IsDigit(c: char) {
    '0' <= c <= '9'
  }

  predicate IsDigits(s: string) {
    forall i :: 0 <= i < |s| ==> IsDigit(s[i])
  }

  function DigitChar(d: nat): (c: char)
    requires d < 10
    ensures IsDigit(c)
  {
    ('0' as int + d) as char
  }

  function DigitValue(c: char): nat
    requires IsDigit(c)
  {
    c as int - '0' as int
  }

  /** Python's `str(n)` for a natural number: decimal, no leading zeros. */
  function NatToString(n: nat): (r: string)
    ensures |r| > 0 && IsDigits(r)
    decreases n
  {
    if n < 10 then [DigitChar(n)] else NatToString(n / 10) + [DigitChar(n % 10)]
  }

  /** The decimal value of a string of digits (Python's `int(s)`, `int("") == 0` aside). */
  function ParseNat(s: string): nat
    requires IsDigits(s)
    decreases |s|
  {
    if |s| == 0 then 0 else 10 * ParseNat(s[..|s| - 1]) + DigitValue(s[|s| - 1])
  }

  /** The longest suffix of `s` made of decimal digits. */
  function DigitSuffix(s: string): (r: string)
    ensures IsDigits(r)
    ensures |r| <= |s| && r == s[|s| - |r|..]
    decreases |s|
  {
    if |s| == 0 || !IsDigit(s[|s| - 1]) then ""
    else DigitSuffix(s[..|s| - 1]) + [s[|s| - 1]]
  }

  // ---------------------------------------------------------------------
  // Replace, split and join

  lemma OccursInTail(s: string, p: string)
    requires |s| > 0
    ensures Occurs(s[1..], p) ==> Occurs(s, p)
  {
    if Occurs(s[1..], p) {
      var i: nat :| OccursAt(s[1..], p, i);
      assert s[1..][i..i + |p|] == s[i + 1..i + 1 + |p|];
      assert OccursAt(s, p, i + 1);
    }
  }

  /** Text in which the pattern does not occur is left unchanged by replace. */
  lemma {:induction false} ReplaceAbsent(s: string, pat: string, rep: string)
    requires |pat| > 0
    requires !Occurs(s, pat)
    ensures ReplaceAll(s, pat, rep) == s
    decreases |s|
  {
    if |s| >= |pat| {
      assert !OccursAt(s, pat, 0);
      assert s[..|pat|] != pat;
      OccursInTail(s, pat);
      ReplaceAbsent(s[1..], pat, rep);
      assert s == [s[0]] + s[1..];
    }
  }

  /** Splitting on a separator and joining with it again gives the text back. */
  lemma {:induction false} JoinSplit(s: string, sep: string)
    requires |sep| > 0
    ensures Join(Split(s, sep), sep) == s
    decreases |s|
  {
    if |s| < |sep| {
    } else if s[..|sep|] == sep {
      JoinSplit(s[|sep|..], sep);
      JoinEmptyFirst(Split(s[|sep|..], sep), sep);
      assert s == s[..|sep|] + s[|sep|..];
    } else {
      JoinSplit(s[1..], sep);
      JoinExtendFirst(s[0], Split(s[1..], sep), sep);
      assert s == [s[0]] + s[1..];
    }
  }

  /** The first piece of a split is a prefix of the text. */
  lemma {:induction false} SplitFirstIsPrefix(s: string, sep: string)
    requires |sep| > 0
    ensures Split(s, sep)[0] <= s
    decreases |s|
  {
    if |s| >= |sep| && s[..|sep|] != sep {
      SplitFirstIsPrefix(s[1..], sep);
      assert s == [s[0]] + s[1..];
    }
  }

  /** No piece of a split contains the separator: every occurrence was cut. */
  lemma {:induction false} SplitPiecesFree(s: string, sep: string)
    requires |sep| > 0
    ensures forall k :: 0 <= k < |Split(s, sep)| ==> !Occurs(Split(s, sep)[k], sep)
    decreases |s|
  {
    var parts := Split(s, sep);
    if |s| < |sep| {
      assert parts == [s];
      forall i: nat ensures !OccursAt(s, sep, i) {
      }
    } else if s[..|sep|] == sep {
      SplitPiecesFree(s[|sep|..], sep);
      var rest := Split(s[|sep|..], sep);
      assert parts == [""] + rest;
      forall k | 0 <= k < |parts| ensures !Occurs(parts[k], sep) {
        if k == 0 {
          forall i: nat ensures !OccursAt("", sep, i) {
          }
        } else {
          assert parts[k] == rest[k - 1];
        }
      }
    } else {
      SplitPiecesFree(s[1..], sep);
      SplitFirstIsPrefix(s[1..], sep);
      var rest := Split(s[1..], sep);
      var first := [s[0]] + rest[0];
      assert parts == [first] + rest[1..];
      assert first <= s;
      forall i: nat ensures !OccursAt(first, sep, i) {
        if i == 0 {
          if |sep| <= |first| {
            assert first[..|sep|] == s[..|sep|];
          }
        } else if OccursAt(first, sep, i) {
          assert first[i..i + |sep|] == rest[0][i - 1..i - 1 + |sep|];
          assert OccursAt(rest[0], sep, i - 1);
          assert false;
        }
      }
      forall k | 0 <= k < |parts| ensures !Occurs(parts[k], sep) {
        if k > 0 {
          assert parts[k] == rest[k];
        }
      }
    }
  }

  /** Joining after an empty first piece: the separator comes first. */
  lemma JoinEmptyFirst(rest: seq<string>, sep: string)
    requires |rest| > 0
    ensures Join([""] + rest, sep) == sep + Join(rest, sep)
  {
  }

  /** Joining after a character is put in front of the first piece. */
  lemma JoinExtendFirst(c: char, rest: seq<string>, sep: string)
    requires |rest| > 0
    ensures Join([[c] + rest[0]] + rest[1..], sep) == [c] + Join(rest, sep)
  {
  }

  /** Python's identity `s.replace(p, r) == r.join(s.split(p))`: the pieces
      between occurrences are kept and every occurrence becomes `rep`. */
  lemma {:induction false} ReplaceIsJoinOfSplit(s: string, pat: string, rep: string)
    requires |pat| > 0
    ensures ReplaceAll(s, pat, rep) == Join(Split(s, pat), rep)
    decreases |s|
  {
    if |s| < |pat| {
    } else if s[..|pat|] == pat {
      ReplaceIsJoinOfSplit(s[|pat|..], pat, rep);
      JoinEmptyFirst(Split(s[|pat|..], pat), rep);
    } else {
      ReplaceIsJoinOfSplit(s[1..], pat, rep);
      JoinExtendFirst(s[0], Split(s[1..], pat), rep);
    }
  }

  /** Joining two non-empty lists is joining each and putting one separator between. */
  lemma {:induction false} JoinConcat(a: seq<string>, b: seq<string>, sep: string)
    requires |a| > 0 && |b| > 0
    ensures Join(a + b, sep) == Join(a, sep) + sep + Join(b, sep)
    decreases |a|
  {
    if |a| == 1 {
      assert (a + b)[1..] == b;
    } else {
      assert (a + b)[1..] == a[1..] + b;
      JoinConcat(a[1..], b, sep);
    }
  }

  /** A single-character separator absent from `a` ends the first piece right after `a`. */
  lemma {:induction false} SplitAtFirstSep(a: string, c: char, b: string)
    requires c !in a
    ensures Split(a + [c] + b, [c]) == [a] + Split(b, [c])
    decreases |a|
  {
    var s := a + [c] + b;
    if |a| == 0 {
      assert s[..1] == [c];
      assert s[1..] == b;
    } else {
      assert s[0] == a[0] && a[0] in a;
      assert s[..1][0] != c;
      assert s[1..] == a[1..] + [c] + b;
      SplitAtFirstSep(a[1..], c, b);
      assert [a[0]] + a[1..] == a;
    }
  }

  /** Newline-free lines, each terminated and then joined with a newline,
      split back into the lines with an empty line after each one. */
  lemma {:induction false} SplitJoinedTerminated(lines: seq<string>)
    requires |lines| > 0
    requires forall k :: 0 <= k < |lines| ==> '\n' !in lines[k]
    ensures Split(Join(Terminated(lines), "\n"), "\n") == Interleaved(lines)
    decreases |lines|
  {
    var t := Terminated(lines);
    if |lines| == 1 {
      assert Join(t, "\n") == lines[0] + ['\n'] + "";
      SplitAtFirstSep(lines[0], '\n', "");
    } else {
      var rest := Join(Terminated(lines[1..]), "\n");
      assert t[1..] == Terminated(lines[1..]);
      assert Join(t, "\n") == lines[0] + ['\n'] + ("" + ['\n'] + rest);
      SplitAtFirstSep(lines[0], '\n', "" + ['\n'] + rest);
      SplitAtFirstSep("", '\n', rest);
      assert "" + ['\n'] + rest == ['\n'] + rest;
      SplitJoinedTerminated(lines[1..]);
    }
  }

  /** Newline-free lines, each terminated and then concatenated, split back
      into the lines followed by one empty piece. */
  lemma {:induction false} SplitConcatTerminated(lines: seq<string>)
    requires forall k :: 0 <= k < |lines| ==> '\n' !in lines[k]
    ensures Split(Concat(Terminated(lines)), "\n") == lines + [""]
    decreases |lines|
  {
    var t := Terminated(lines);
    if |lines| > 0 {
      assert t[1..] == Terminated(lines[1..]);
      assert Concat(t) == lines[0] + ['\n'] + Concat(Terminated(lines[1..]));
      SplitAtFirstSep(lines[0], '\n', Concat(Terminated(lines[1..])));
      SplitConcatTerminated(lines[1..]);
      assert lines == [lines[0]] + lines[1..];
    }
  }

  function SumLengths(parts: seq<string>): nat
    decreases |parts|
  {
    if |parts| == 0 then 0 else |parts[0]| + SumLengths(parts[1..])
  }

  lemma {:induction false} JoinLength(parts: seq<string>, sep: string)
    requires |parts| > 0
    ensures |Join(parts, sep)| == SumLengths(parts) + (|parts| - 1) * |sep|
    decreases |parts|
  {
    if |parts| > 1 {
      JoinLength(parts[1..], sep);
    }
  }

  lemma {:induction false} ConcatLength(parts: seq<string>)
    ensures |Concat(parts)| == SumLengths(parts)
    decreases |parts|
  {
    if |parts| > 0 {
      ConcatLength(parts[1..]);
    }
  }

  // ---------------------------------------------------------------------
  // Stems

  /** The stem is the first piece of Python's `split('.')`. */
  lemma {:induction false} StemIsFirstPiece(s: string)
    ensures Split(s, ".")[0] == Stem(s)
    decreases |s|
  {
    if |s| >= 1 && s[..1] != "." {
      assert s[0] != '.';
      StemIsFirstPiece(s[1..]);
    }
  }

  /** Appending text after a `.` does not change the stem. */
  lemma {:induction false} StemOfExtended(a: string, b: string)
    requires '.' in a
    ensures Stem(a + b) == Stem(a)
    decreases |a|
  {
    if a[0] != '.' {
      assert (a + b)[1..] == a[1..] + b;
      StemOfExtended(a[1..], b);
    }
  }

  // ---------------------------------------------------------------------
  // Decimal numerals

  /** Reading back the decimal text of `n` gives `n`. */
  lemma {:induction false} ParseNatToString(n: nat)
    ensures ParseNat(NatToString(n)) == n
    decreases n
  {
    var s := NatToString(n);
    if n >= 10 {
      assert s[..|s| - 1] == NatToString(n / 10);
      ParseNatToString(n / 10);
    }
  }

  /** Behind a non-digit, the digit suffix of `a + d` is exactly the digits `d`. */
  lemma {:induction false} DigitSuffixAfterNonDigit(a: string, d: string)
    requires |a| > 0 && !IsDigit(a[|a| - 1])
    requires IsDigits(d)
    ensures DigitSuffix(a + d) == d
    decreases |d|
  {
    if |d| == 0 {
      assert a + d == a;
    } else {
      var d' := d[..|d| - 1];
      assert (a + d)[..|a + d| - 1] == a + d';
      DigitSuffixAfterNonDigit(a, d');
      assert d == d' + [d[|d| - 1]];
    }
  }
}
