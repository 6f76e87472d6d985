/**
 * The pieces of Python's str that the game relies on: the whitespace test,
 * str.split() with no argument (team names), str.split(sep) (heights) and
 * the narrower whitespace that int() skips around its digits.
 */
module Strings {

  import opened Wrappers

  /** The code points for which Python's str.isspace() holds. */
  predicate IsSpace(c: char) {
    var k := c as int;
    (9 <= k <= 13) || (28 <= k <= 32) || k == 0x85 || k == 0xA0 || k == 0x1680
    || (0x2000 <= k <= 0x200A) || k == 0x2028 || k == 0x2029 || k == 0x202F
    || k == 0x205F || k == 0x3000
  }

  /** Every character is whitespace (the empty string included). */
  predicate Blank(s: string) {
    forall i :: 0 <= i < |s| ==> IsSpace(s[i])
  }

  /** No character is whitespace. */
  predicate NoSpace(s: string) {
    forall i :: 0 <= i < |s| ==> !IsSpace(s[i])
  }

  /** Length of the run of non-whitespace characters that s starts with. */
  function WordLen(s: string): (n: nat)
    ensures n <= |s|
  {
    if s == [] || IsSpace(s[0]) then 0 else 1 + WordLen(s[1..])
  }

  /** The first word has no whitespace and ends at whitespace or at the end of the string. */
  lemma {:induction false} WordLenStops(s: string)
    ensures NoSpace(s[..WordLen(s)])
    ensures WordLen(s) < |s| ==> IsSpace(s[WordLen(s)])
  {
    if s != [] && !IsSpace(s[0]) {
      WordLenStops(s[1..]);
      var n := WordLen(s);
      forall i | 0 <= i < n ensures !IsSpace(s[..n][i]) {
        if i > 0 { assert s[..n][i] == s[1..][..n - 1][i - 1]; }
      }
    }
  }

  /**
   * Python's s.split() with no argument: the maximal runs of non-whitespace
   * characters, in order; runs of whitespace of any length separate them and
   * leading or trailing whitespace yields no empty word.
   */
  function Words(s: string): seq<string>
    decreases |s|
  {
    if s == [] then []
    else if IsSpace(s[0]) then Words(s[1..])
    else
      var n := WordLen(s);
      [s[..n]] + Words(s[n..])
  }

  /** Every word is non-empty and has no whitespace; there are no words exactly when the string is blank. */
  lemma {:induction false} WordsShape(s: string)
    ensures forall k :: 0 <= k < |Words(s)| ==> Words(s)[k] != [] && NoSpace(Words(s)[k])
    ensures Words(s) == [] <==> Blank(s)
    decreases |s|
  {
    if s == [] {
    } else if IsSpace(s[0]) {
      WordsShape(s[1..]);
      if Blank(s[1..]) {
        forall i | 0 <= i < |s| ensures IsSpace(s[i]) {
          if i > 0 { assert s[i] == s[1..][i - 1]; }
        }
      }
    } else {
      WordLenStops(s);
      WordsShape(s[WordLen(s)..]);
    }
  }

  /** Python's s.split()[-1]: the last word, or None where that indexing raises IndexError. */
  function LastWord(s: string): (r: Option<string>)
    ensures r.None? <==> Blank(s)
    ensures r.Some? ==> r.value != [] && NoSpace(r.value)
  {
    var ws := Words(s);
    WordsShape(s);
    if ws == [] then None else Some(ws[|ws| - 1])
  }

  /** A string that ends in whitespace has its first word inside it, whatever follows. */
  lemma {:induction false} WordLenOfSpaced(s: string, q: string)
    requires s != [] && IsSpace(s[|s| - 1])
    ensures WordLen(s + q) == WordLen(s) < |s|
    decreases |s|
  {
    if !IsSpace(s[0]) {
      assert (s + q)[1..] == s[1..] + q;
      WordLenOfSpaced(s[1..], q);
    }
  }

  /** Splitting at a whitespace boundary: the words of p + q are those of p followed by those of q. */
  lemma {:induction false} WordsConcat(p: string, q: string)
    requires p == [] || IsSpace(p[|p| - 1])
    ensures Words(p + q) == Words(p) + Words(q)
    decreases |p|
  {
    if p == [] {
      assert p + q == q;
    } else if IsSpace(p[0]) {
      assert (p + q)[1..] == p[1..] + q;
      WordsConcat(p[1..], q);
    } else {
      WordLenOfSpaced(p, q);
      var n := WordLen(p);
      assert (p + q)[..n] == p[..n];
      assert (p + q)[n..] == p[n..] + q;
      WordsConcat(p[n..], q);
    }
  }

  /** A run without whitespace followed by whitespace or nothing is the whole first word. */
  lemma {:induction false} WordLenOfWord(w: string, b: string)
    requires NoSpace(w)
    requires b == [] || IsSpace(b[0])
    ensures WordLen(w + b) == |w|
    decreases |w|
  {
    if w == [] {
      assert w + b == b;
    } else {
      assert (w + b)[0] == w[0] && (w + b)[1..] == w[1..] + b;
      WordLenOfWord(w[1..], b);
    }
  }

  /** A non-empty string without whitespace, followed by any whitespace, is a single word. */
  lemma WordsOfWord(w: string, b: string)
    requires w != [] && NoSpace(w)
    requires Blank(b)
    ensures Words(w + b) == [w]
  {
    assert (w + b)[0] == w[0] && !IsSpace(w[0]);
    WordLenOfWord(w, b);
    assert (w + b)[..|w|] == w && (w + b)[|w|..] == b;
    WordsShape(b);
  }

  /** The last word of "<anything ending in whitespace><word><whitespace>" is that word. */
  lemma LastWordAfterSpace(p: string, w: string, b: string)
    requires p == [] || IsSpace(p[|p| - 1])
    requires w != [] && NoSpace(w)
    requires Blank(b)
    ensures LastWord(p + w + b) == Some(w)
  {
    assert p + w + b == p + (w + b);
    WordsConcat(p, w + b);
    WordsOfWord(w, b);
  }

  /**
   * Python's s.split(sep) for a one-character separator: the pieces between
   * separators, empty pieces included; there is always one more piece than
   * there are separators.
   */
  function SplitOn(s: string, sep: char): seq<string> {
    if s == [] then [[]]
    else
      var rest := SplitOn(s[1..], sep);
      if s[0] == sep then [[]] + rest
      else [[s[0]] + rest[0]] + rest[1..]
  }

  /** There is one more piece than there are separators, and no piece holds the separator. */
  lemma {:induction false} SplitOnPieces(s: string, sep: char)
    ensures |SplitOn(s, sep)| == multiset(s)[sep] + 1
    ensures forall k :: 0 <= k < |SplitOn(s, sep)| ==> sep !in SplitOn(s, sep)[k]
  {
    if s != [] {
      SplitOnPieces(s[1..], sep);
      assert s == [s[0]] + s[1..];
    }
  }

  /** Python's sep.join(parts): the inverse of SplitOn. */
  function Join(parts: seq<string>, sep: char): string
    requires parts != []
  {
    if |parts| == 1 then parts[0] else parts[0] + [sep] + Join(parts[1..], sep)
  }

  /** Joining the pieces back with the separator gives the original string. */
  lemma {:induction false} JoinSplit(s: string, sep: char)
    ensures Join(SplitOn(s, sep), sep) == s
  {
    if s != [] {
      JoinSplit(s[1..], sep);
    }
  }

  /** A separator-free prefix is glued onto the first piece of what follows it. */
  lemma {:induction false} SplitOnPrefix(a: string, t: string, sep: char)
    requires sep !in a
    ensures SplitOn(a + t, sep) == [a + SplitOn(t, sep)[0]] + SplitOn(t, sep)[1..]
  {
    if a != [] {
      assert (a + t)[1..] == a[1..] + t;
      assert (a + t)[0] == a[0] && a[0] != sep;
      SplitOnPrefix(a[1..], t, sep);
      var parts := SplitOn(t, sep);
      var rest := SplitOn(a[1..] + t, sep);
      assert rest[0] == a[1..] + parts[0] && rest[1..] == parts[1..];
      assert [a[0]] + (a[1..] + parts[0]) == a + parts[0];
    } else {
      var parts := SplitOn(t, sep);
      assert a + t == t && a + parts[0] == parts[0];
      assert parts == [parts[0]] + parts[1..];
    }
  }

  /** Splitting a join of separator-free pieces gives the pieces back. */
  lemma {:induction false} SplitJoin(parts: seq<string>, sep: char)
    requires parts != []
    requires forall k :: 0 <= k < |parts| ==> sep !in parts[k]
    ensures SplitOn(Join(parts, sep), sep) == parts
  {
    if |parts| == 1 {
      SplitOnPrefix(parts[0], [], sep);
      assert parts[0] + [] == parts[0];
    } else {
      var rest := Join(parts[1..], sep);
      SplitJoin(parts[1..], sep);
      assert parts[0] + [sep] + rest == parts[0] + ([sep] + rest);
      SplitOnPrefix(parts[0], [sep] + rest, sep);
      assert ([sep] + rest)[1..] == rest;
      assert parts[0] + [] == parts[0];
    }
  }

  /** A string holding the separator exactly once is the two separator-free pieces around it. */
  lemma SplitOnOnce(s: string, sep: char)
    requires multiset(s)[sep] == 1
    ensures |SplitOn(s, sep)| == 2
    ensures s == SplitOn(s, sep)[0] + [sep] + SplitOn(s, sep)[1]
    ensures sep !in SplitOn(s, sep)[0] && sep !in SplitOn(s, sep)[1]
  {
    SplitOnPieces(s, sep);
    JoinSplit(s, sep);
    var parts := SplitOn(s, sep);
    assert parts[1..] == [parts[1]];
  }

  /**
   * The whitespace int() skips around its digits: ASCII tab, line feed,
   * vertical tab, form feed, carriage return and space, and the non-ASCII
   * characters for which str.isspace() holds (int() turns those into spaces
   * first). The ASCII separators U+001C to U+001F, for which str.isspace()
   * holds, are not skipped, so int() rejects a string padded with them.
   */
  predicate IntSpace(c: char) {
    IsSpace(c) && !(28 <= c as int <= 31)
  }

  /** Every character is whitespace that int() skips (the empty string included). */
  predicate IntBlank(s: string) {
    forall i :: 0 <= i < |s| ==> IntSpace(s[i])
  }

  /** Number of whitespace characters, in the sense of IntSpace, that s starts with. */
  function LeadingSpaces(s: string): (n: nat)
    ensures n <= |s|
  {
    if s == [] || !IntSpace(s[0]) then 0 else 1 + LeadingSpaces(s[1..])
  }

  /** Number of whitespace characters, in the sense of IntSpace, that s ends with. */
  function TrailingSpaces(s: string): (n: nat)
    ensures n <= |s|
  {
    if s == [] || !IntSpace(s[|s| - 1]) then 0 else 1 + TrailingSpaces(s[..|s| - 1])
  }

  /** The padding int() skips: s without its leading and trailing IntSpace characters. */
  function Strip(s: string): string {
    var rest := s[LeadingSpaces(s)..];
    rest[..|rest| - TrailingSpaces(rest)]
  }

  /** Stripping only removes characters. */
  lemma StripKeeps(s: string)
    ensures forall c :: c in Strip(s) ==> c in s
  {
    var i := LeadingSpaces(s);
    var rest := s[i..];
    var t := rest[..|rest| - TrailingSpaces(rest)];
    forall c | c in t ensures c in s {
      var k :| 0 <= k < |t| && t[k] == c;
      assert s[i + k] == c;
    }
  }

  /** The leading whitespace is all whitespace and is followed by a non-whitespace character, if any. */
  lemma {:induction false} LeadingSpacesEnd(s: string)
    ensures IntBlank(s[..LeadingSpaces(s)])
    ensures LeadingSpaces(s) < |s| ==> !IntSpace(s[LeadingSpaces(s)])
  {
    if s != [] && IntSpace(s[0]) {
      LeadingSpacesEnd(s[1..]);
      var n := LeadingSpaces(s);
      forall i | 0 <= i < n ensures IntSpace(s[..n][i]) {
        if i > 0 { assert s[..n][i] == s[1..][..n - 1][i - 1]; }
      }
    }
  }

  /** The trailing whitespace is all whitespace and is preceded by a non-whitespace character, if any. */
  lemma {:induction false} TrailingSpacesEnd(s: string)
    ensures IntBlank(s[|s| - TrailingSpaces(s)..])
    ensures TrailingSpaces(s) < |s| ==> !IntSpace(s[|s| - TrailingSpaces(s) - 1])
  {
    if s != [] && IntSpace(s[|s| - 1]) {
      var init := s[..|s| - 1];
      TrailingSpacesEnd(init);
      var n := TrailingSpaces(s);
      forall i | |s| - n <= i < |s| ensures IntSpace(s[i]) {
        if i < |s| - 1 { assert s[i] == init[i]; assert init[|init| - (n - 1)..][i - (|init| - (n - 1))] == init[i]; }
      }
    }
  }

  /** A string that starts with non-whitespace is not all trailing whitespace. */
  lemma {:induction false} TrailingSpacesStop(s: string)
    requires s != [] && !IntSpace(s[0])
    ensures TrailingSpaces(s) < |s|
  {
    if IntSpace(s[|s| - 1]) {
      TrailingSpacesStop(s[..|s| - 1]);
    }
  }

  /** Stripping gives the empty string exactly for a blank string, and otherwise a string with non-whitespace ends. */
  lemma StripEnds(s: string)
    ensures Strip(s) == [] <==> IntBlank(s)
    ensures Strip(s) != [] ==> !IntSpace(Strip(s)[0]) && !IntSpace(Strip(s)[|Strip(s)| - 1])
  {
    var i := LeadingSpaces(s);
    var rest := s[i..];
    var j := TrailingSpaces(rest);
    LeadingSpacesEnd(s);
    TrailingSpacesEnd(rest);
    if IntBlank(s) {
      assert i == |s|;
    } else {
      assert i < |s|;
      assert !IntSpace(rest[0]);
      TrailingSpacesStop(rest);
    }
  }

  /** Every string is its stripped form with whitespace on either side. */
  lemma StripPieces(s: string) returns (p: string, q: string)
    ensures IntBlank(p) && IntBlank(q) && s == p + Strip(s) + q
  {
    var i := LeadingSpaces(s);
    var rest := s[i..];
    var k := |rest| - TrailingSpaces(rest);
    p, q := s[..i], rest[k..];
    LeadingSpacesEnd(s);
    TrailingSpacesEnd(rest);
    CutTwice(s, i, k);
  }

  /** Cutting a string at i and the rest at k gives three pieces that rebuild it. */
  lemma CutTwice(s: string, i: nat, k: nat)
    requires i <= |s| && k <= |s| - i
    ensures s == s[..i] + s[i..][..k] + s[i..][k..]
  {
    assert s[i..] == s[i..][..k] + s[i..][k..];
  }

  /** Strip removes exactly the whitespace padding around a string that starts and ends in non-whitespace. */
  lemma StripPadded(p: string, t: string, q: string)
    requires IntBlank(p) && IntBlank(q)
    requires t != [] && !IntSpace(t[0]) && !IntSpace(t[|t| - 1])
    ensures Strip(p + t + q) == t
  {
    var s := p + t + q;
    LeadingOfPadded(p, t + q);
    assert s == p + (t + q) && s[|p|..] == t + q;
    TrailingOfPadded(t, q);
  }

  lemma {:induction false} LeadingOfPadded(p: string, u: string)
    requires IntBlank(p) && u != [] && !IntSpace(u[0])
    ensures LeadingSpaces(p + u) == |p|
  {
    if p != [] {
      assert (p + u)[1..] == p[1..] + u;
      LeadingOfPadded(p[1..], u);
    } else {
      assert p + u == u;
    }
  }

  lemma {:induction false} TrailingOfPadded(u: string, q: string)
    requires IntBlank(q) && u != [] && !IntSpace(u[|u| - 1])
    ensures TrailingSpaces(u + q) == |q|
  {
    if q != [] {
      assert (u + q)[..|u + q| - 1] == u + q[..|q| - 1];
      TrailingOfPadded(u, q[..|q| - 1]);
    } else {
      assert u + q == u;
    }
  }
}
