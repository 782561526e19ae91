/** The string operations of the JavaScript runtime that the agent relies on:
    `String.prototype.trim`, and `String.prototype.split` with a
    one-character separator. */
module JsString {

  /** WhiteSpace and LineTerminator of ECMAScript: the characters `trim` and
      `parseInt` skip. */
  predicate IsWhiteSpace(c: char) {
    || c == '\t' || c == '\n' || c == '\U{000B}' || c == '\U{000C}' || c == '\r' || c == ' '
    || c == '\U{00A0}' || c == '\U{1680}' || ('\U{2000}' <= c <= '\U{200A}')
    || c == '\U{2028}' || c == '\U{2029}' || c == '\U{202F}' || c == '\U{205F}'
    || c == '\U{3000}' || c == '\U{FEFF}'
  }

  predicate AllWhiteSpace(s: string) {
    forall i :: 0 <= i < |s| ==> IsWhiteSpace(s[i])
  }

  /** Number of white-space characters at the start of `s`. */
  function LeadingSpace(s: string): (n: nat)
    ensures n <= |s|
    ensures AllWhiteSpace(s[..n])
    ensures n < |s| ==> !IsWhiteSpace(s[n])
  {
    if |s| == 0 || !IsWhiteSpace(s[0]) then 0
    else
      var m := LeadingSpace(s[1..]);
      assert s[..1 + m] == [s[0]] + s[1..][..m];
      1 + m
  }

  /** Number of white-space characters at the end of `s`. */
  function TrailingSpace(s: string): (n: nat)
    ensures n <= |s|
    ensures AllWhiteSpace(s[|s| - n..])
    ensures n < |s| ==> !IsWhiteSpace(s[|s| - n - 1])
  {
    if |s| == 0 || !IsWhiteSpace(s[|s| - 1]) then 0
    else
      var t := s[..|s| - 1];
      var m := TrailingSpace(t);
      assert s[|s| - 1 - m..] == t[|t| - m..] + [s[|s| - 1]];
      assert m < |t| ==> s[|s| - m - 2] == t[|t| - m - 1];
      1 + m
  }

  /** `s.trim()`: `s` without its leading and trailing white space. The
      result is the part of `s` between two runs of white space, and it
      neither starts nor ends with white space. */
  function Trim(s: string): (t: string)
    ensures |t| == 0 || (!IsWhiteSpace(t[0]) && !IsWhiteSpace(t[|t| - 1]))
    ensures exists i :: 0 <= i <= |s| - |t| && s[i..i + |t|] == t
                        && AllWhiteSpace(s[..i]) && AllWhiteSpace(s[i + |t|..])
  {
    var a := LeadingSpace(s);
    var rest := s[a..];
    var b := TrailingSpace(rest);
    var t := rest[..|rest| - b];
    assert s[a..a + |t|] == t;
    assert s[a + |t|..] == rest[|rest| - b..];
    t
  }

  /** `LeadingSpace` is the one count its contract describes. */
  lemma {:induction false} LeadingSpaceUnique(s: string, k: nat)
    requires k <= |s| && AllWhiteSpace(s[..k])
    requires k < |s| ==> !IsWhiteSpace(s[k])
    ensures LeadingSpace(s) == k
  {
    if k > 0 {
      assert IsWhiteSpace(s[..k][0]);
      var t := s[1..];
      var w, ws := t[..k - 1], s[..k];
      forall j | 0 <= j < k - 1 ensures IsWhiteSpace(w[j]) {
        assert w[j] == ws[j + 1];
      }
      assert k - 1 < |t| ==> t[k - 1] == s[k];
      LeadingSpaceUnique(t, k - 1);
    }
  }

  /** `TrailingSpace` is the one count its contract describes. */
  lemma {:induction false} TrailingSpaceUnique(s: string, k: nat)
    requires k <= |s| && AllWhiteSpace(s[|s| - k..])
    requires k < |s| ==> !IsWhiteSpace(s[|s| - k - 1])
    ensures TrailingSpace(s) == k
  {
    if k > 0 {
      assert IsWhiteSpace(s[|s| - k..][k - 1]);
      var t := s[..|s| - 1];
      var w, ws := t[|t| - (k - 1)..], s[|s| - k..];
      forall j | 0 <= j < k - 1 ensures IsWhiteSpace(w[j]) {
        assert w[j] == ws[j];
      }
      assert k - 1 < |t| ==> t[|t| - (k - 1) - 1] == s[|s| - k - 1];
      TrailingSpaceUnique(t, k - 1);
    }
  }

  /** Trimming is determined by the text between the white-space runs: the
      converse of the characterisation in `Trim`'s contract. */
  lemma TrimOfPadded(before: string, t: string, after: string)
    requires AllWhiteSpace(before) && AllWhiteSpace(after)
    requires |t| == 0 || (!IsWhiteSpace(t[0]) && !IsWhiteSpace(t[|t| - 1]))
    ensures Trim(before + t + after) == t
  {
    var s := before + t + after;
    if |t| == 0 {
      assert s == before + after;
      assert s[..|s|] == s;
      LeadingSpaceUnique(s, |s|);
    } else {
      assert s[..|before|] == before;
      LeadingSpaceUnique(s, |before|);
      var rest := s[|before|..];
      assert rest == t + after;
      assert rest[|rest| - |after|..] == after;
      TrailingSpaceUnique(rest, |after|);
      assert rest[..|rest| - |after|] == t;
    }
  }

  /** `s.split(sep)` for a one-character separator: the pieces of `s` between
      occurrences of `sep`. There is always at least one piece, and no piece
      contains the separator. */
  function Split(s: string, sep: char): (parts: seq<string>)
    ensures |parts| >= 1
    ensures forall i :: 0 <= i < |parts| ==> sep !in parts[i]
  {
    if |s| == 0 then [""]
    else
      var rest := Split(s[1..], sep);
      if s[0] == sep then [""] + rest
      else [[s[0]] + rest[0]] + rest[1..]
  }

  /** `parts.join(sep)`: the reference inverse of `Split`. */
  function Join(parts: seq<string>, sep: char): string
    requires |parts| >= 1
  {
    if |parts| == 1 then parts[0]
    else parts[0] + [sep] + Join(parts[1..], sep)
  }

  /** Splitting loses nothing: joining the pieces gives the text back. */
  lemma {:induction false} JoinSplit(s: string, sep: char)
    ensures Join(Split(s, sep), sep) == s
  {
    if |s| > 0 {
      var rest := Split(s[1..], sep);
      JoinSplit(s[1..], sep);
      if s[0] != sep {
        var parts := Split(s, sep);
        if |rest| == 1 {
          assert parts == [[s[0]] + rest[0]];
        } else {
          assert parts[1..] == rest[1..];
          assert Join(rest, sep) == rest[0] + [sep] + Join(rest[1..], sep);
        }
      }
    }
  }

  /** Splitting a piece that has no separator, followed by a separator. */
  lemma {:induction false} SplitPiece(a: string, sep: char, b: string)
    requires sep !in a
    ensures Split(a + [sep] + b, sep) == [a] + Split(b, sep)
  {
    if |a| > 0 {
      assert (a + [sep] + b)[1..] == a[1..] + [sep] + b;
      SplitPiece(a[1..], sep, b);
      assert [a[0]] + a[1..] == a;
    } else {
      assert (a + [sep] + b)[1..] == b;
    }
  }

  /** Splitting a piece that has no separator gives that piece alone. */
  lemma {:induction false} SplitWhole(a: string, sep: char)
    requires sep !in a
    ensures Split(a, sep) == [a]
  {
    if |a| > 0 {
      SplitWhole(a[1..], sep);
      assert [a[0]] + a[1..] == a;
    }
  }

  /** Joining pieces free of the separator and splitting again gives the
      pieces back. */
  lemma {:induction false} SplitJoin(parts: seq<string>, sep: char)
    requires |parts| >= 1
    requires forall i :: 0 <= i < |parts| ==> sep !in parts[i]
    ensures Split(Join(parts, sep), sep) == parts
  {
    if |parts| == 1 {
      SplitWhole(parts[0], sep);
    } else {
      SplitJoin(parts[1..], sep);
      SplitPiece(parts[0], sep, Join(parts[1..], sep));
      assert [parts[0]] + parts[1..] == parts;
    }
  }
}
