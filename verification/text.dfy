/** Strings as the page script sees them: ECMAScript white space and
    `String.prototype.trim`, the UTF-16 `length`, the first-letter upper-casing
    of a field name, and the small search helpers the other modules share. */
module Text {

  /** White space as ECMAScript defines it both for `trim` and for the
      regular-expression class `\s`: the WhiteSpace and LineTerminator
      productions, with the characters of Unicode category Zs written out. */
  predicate IsWhitespace(c: char) {
    || c == '\t' || c == '\U{000B}' || c == '\U{000C}' || c == ' ' || c == '\U{00A0}'
    || c == '\U{FEFF}' || c == '\n' || c == '\r' || c == '\U{2028}' || c == '\U{2029}'
    || c == '\U{1680}' || ('\U{2000}' <= c <= '\U{200A}')
    || c == '\U{202F}' || c == '\U{205F}' || c == '\U{3000}'
  }

  predicate AllWhitespace(s: string) {
    forall i :: 0 <= i < |s| ==> IsWhitespace(s[i])
  }

  predicate NoWhitespace(s: string) {
    forall i :: 0 <= i < |s| ==> !IsWhitespace(s[i])
  }

  /** A string `trim` leaves as it is: empty, or non-blank at both ends. */
  predicate Trimmed(s: string) {
    s == [] || (!IsWhitespace(s[0]) && !IsWhitespace(s[|s| - 1]))
  }

  /** How many white-space characters `s` starts with. */
  function LeadingBlanks(s: string): (n: nat)
    ensures n <= |s|
    ensures forall i :: 0 <= i < n ==> IsWhitespace(s[i])
    ensures n < |s| ==> !IsWhitespace(s[n])
  {
    if s == [] || !IsWhitespace(s[0]) then 0
    else
      var n := 1 + LeadingBlanks(s[1..]);
      assert forall i :: 1 <= i < |s| ==> s[i] == s[1..][i - 1];
      n
  }

  /** How many white-space characters `s` ends with. */
  function TrailingBlanks(s: string): (n: nat)
    ensures n <= |s|
    ensures forall i :: |s| - n <= i < |s| ==> IsWhitespace(s[i])
    ensures n < |s| ==> !IsWhitespace(s[|s| - n - 1])
  {
    if s == [] || !IsWhitespace(s[|s| - 1]) then 0
    else
      var n := 1 + TrailingBlanks(s[..|s| - 1]);
      assert forall i :: 0 <= i < |s| - 1 ==> s[i] == s[..|s| - 1][i];
      n
  }

  /** `String.prototype.trim`: what lies between the leading and the trailing
      white space. */
  function Trim(s: string): (r: string)
    ensures |r| <= |s|
    ensures Trimmed(r)
    ensures r == [] <==> AllWhitespace(s)
  {
    var lead := LeadingBlanks(s);
    if lead == |s| then []
    else
      var trail := TrailingBlanks(s);
      assert trail < |s| - lead;
      var r := s[lead..|s| - trail];
      assert r[0] == s[lead] && r[|r| - 1] == s[|s| - trail - 1];
      r
  }

  /** Every string is its trim with white space on either side. */
  lemma TrimSplit(s: string) returns (front: string, back: string)
    ensures s == front + Trim(s) + back
    ensures AllWhitespace(front) && AllWhitespace(back)
  {
    var lead := LeadingBlanks(s);
    if lead == |s| {
      front, back := s, [];
      assert s == front + [] + back;
    } else {
      var trail := TrailingBlanks(s);
      front, back := s[..lead], s[|s| - trail..];
      assert AllWhitespace(back) by {
        forall i | 0 <= i < |back| ensures IsWhitespace(back[i]) { assert back[i] == s[|s| - trail + i]; }
      }
      assert s == front + s[lead..|s| - trail] + back;
    }
  }

  /** `trim` removes exactly the white-space padding around a core that is
      itself non-blank at both ends: the core is recovered whatever the
      padding was. */
  lemma TrimRecoversCore(front: string, core: string, back: string)
    requires AllWhitespace(front) && AllWhitespace(back)
    requires Trimmed(core)
    ensures Trim(front + core + back) == core
  {
    var s := front + core + back;
    var lead := LeadingBlanks(s);
    if core == [] {
      assert AllWhitespace(s) by {
        forall i | 0 <= i < |s| ensures IsWhitespace(s[i]) {
          if i < |front| { assert s[i] == front[i]; } else { assert s[i] == back[i - |front|]; }
        }
      }
    } else {
      assert s[|front|] == core[0];
      assert forall i :: 0 <= i < |front| ==> s[i] == front[i];
      assert lead == |front|;
      var trail := TrailingBlanks(s);
      assert s[|s| - |back| - 1] == core[|core| - 1];
      assert forall i :: |s| - |back| <= i < |s| ==> s[i] == back[i - (|s| - |back|)];
      assert trail == |back|;
      assert s[lead..|s| - trail] == core;
    }
  }

  /** A string already non-blank at both ends is its own trim. */
  lemma TrimKeepsTrimmed(s: string)
    requires Trimmed(s)
    ensures Trim(s) == s
  {
    assert [] + s + [] == s;
    TrimRecoversCore([], s, []);
  }

  /** Trimming twice is trimming once. */
  lemma TrimIdempotent(s: string)
    ensures Trim(Trim(s)) == Trim(s)
  {
    TrimKeepsTrimmed(Trim(s));
  }

  lemma AllWhitespaceAppend(a: string, b: string)
    requires AllWhitespace(a) && AllWhitespace(b)
    ensures AllWhitespace(a + b)
  {
    forall i | 0 <= i < |a + b| ensures IsWhitespace((a + b)[i]) {
      if i < |a| { assert (a + b)[i] == a[i]; } else { assert (a + b)[i] == b[i - |a|]; }
    }
  }

  /** Regrouping of five concatenated strings, kept apart from the
      trimming facts so that proving it stays cheap. */
  lemma SeqAssoc(a: string, b: string, c: string, d: string, e: string)
    ensures a + (b + c + d) + e == (a + b) + c + (d + e)
  {
  }

  /** White space added around a string does not survive `trim`. */
  lemma TrimIgnoresPadding(front: string, s: string, back: string)
    requires AllWhitespace(front) && AllWhitespace(back)
    ensures Trim(front + s + back) == Trim(s)
  {
    var pre, post := TrimSplit(s);
    var t := Trim(s);
    AllWhitespaceAppend(front, pre);
    AllWhitespaceAppend(post, back);
    assert front + s + back == (front + pre) + t + (post + back) by {
      calc {
        front + s + back;
        front + (pre + t + post) + back;
        { SeqAssoc(front, pre, t, post, back); }
        (front + pre) + t + (post + back);
      }
    }
    TrimRecoversCore(front + pre, t, post + back);
  }

  /** The number of UTF-16 code units of a string, which is what the script's
      `value.length` counts: characters outside the Basic Multilingual Plane
      are stored as surrogate pairs and count twice. */
  function Utf16Length(s: string): (n: nat)
    ensures |s| <= n <= 2 * |s|
    ensures n == |s| <==> forall i :: 0 <= i < |s| ==> (s[i] as int) < 0x1_0000
    // one code unit for a character of the Basic Multilingual Plane, a
    // surrogate pair for any other
    ensures |s| == 1 ==> n == (if (s[0] as int) < 0x1_0000 then 1 else 2)
  {
    if s == [] then 0
    else
      var rest := Utf16Length(s[1..]);
      assert forall i :: 1 <= i < |s| ==> s[i] == s[1..][i - 1];
      (if (s[0] as int) < 0x1_0000 then 1 else 2) + rest
  }

  /** Code units add up over concatenation; with the one-character values
      above this fixes the length of every string. */
  lemma {:induction false} Utf16LengthAppend(a: string, b: string)
    ensures Utf16Length(a + b) == Utf16Length(a) + Utf16Length(b)
    decreases |a|
  {
    if a == [] {
      assert a + b == b;
    } else {
      assert (a + b)[0] == a[0];
      assert (a + b)[1..] == a[1..] + b;
      Utf16LengthAppend(a[1..], b);
    }
  }

  /** The number of occurrences of `c` in `s`. */
  function Count(s: string, c: char): (n: nat)
    ensures n <= |s|
    ensures n == 0 <==> c !in s
  {
    if s == [] then 0 else (if s[0] == c then 1 else 0) + Count(s[1..], c)
  }

  lemma {:induction false} CountAppend(a: string, b: string, c: char)
    ensures Count(a + b, c) == Count(a, c) + Count(b, c)
  {
    if a == [] {
      assert a + b == b;
    } else {
      assert (a + b)[1..] == a[1..] + b;
      CountAppend(a[1..], b, c);
    }
  }

  /** A character placed once between two strings without it occurs once. */
  lemma CountSingle(a: string, c: char, b: string)
    requires c !in a && c !in b
    ensures Count(a + [c] + b, c) == 1
  {
    CountAppend(a + [c], b, c);
    CountAppend(a, [c], c);
  }

  /** A character that occurs once occurs nowhere but at its one position. */
  lemma CountOnce(s: string, c: char, i: nat)
    requires i < |s| && s[i] == c
    requires Count(s, c) == 1
    ensures forall j :: 0 <= j < |s| && j != i ==> s[j] != c
  {
    assert s == s[..i] + ([s[i]] + s[i + 1..]);
    CountAppend(s[..i], [s[i]] + s[i + 1..], c);
    CountAppend([s[i]], s[i + 1..], c);
    assert c !in s[..i] && c !in s[i + 1..];
    forall j | 0 <= j < |s| && j != i
      ensures s[j] != c
    {
      if j < i { assert s[j] == s[..i][j]; } else { assert s[j] == s[i + 1..][j - i - 1]; }
    }
  }

  /** The position of the first `c` in `s`, or `|s|` when there is none. */
  function IndexOf(s: string, c: char): (r: nat)
    ensures r <= |s|
    ensures r < |s| ==> s[r] == c
    ensures r == |s| <==> c !in s
    ensures forall j :: 0 <= j < r ==> s[j] != c
  {
    if s == [] then 0
    else if s[0] == c then 0
    else
      var r := 1 + IndexOf(s[1..], c);
      assert forall j :: 1 <= j < |s| ==> s[j] == s[1..][j - 1];
      r
  }

  /** The first `c` of `a + [c] + b` is the one after `a` when `a` has none. */
  lemma IndexOfAfter(a: string, c: char, b: string)
    requires c !in a
    ensures IndexOf(a + [c] + b, c) == |a|
  {
    var s := a + [c] + b;
    assert s[|a|] == c;
    assert forall j :: 0 <= j < |a| ==> s[j] == a[j];
  }

  lemma NotInAppend(a: string, b: string, c: char)
    requires c !in a && c !in b
    ensures c !in a + b
  {
    forall i | 0 <= i < |a + b| ensures (a + b)[i] != c {
      if i < |a| { assert (a + b)[i] == a[i]; } else { assert (a + b)[i] == b[i - |a|]; }
    }
  }

  /** The pieces of `s` between occurrences of `sep`, like the script's
      `split` on a one-character separator. */
  function SplitOn(s: string, sep: char): (parts: seq<string>)
    ensures |parts| >= 1
    ensures |parts| == 1 <==> sep !in s
    ensures forall k :: 0 <= k < |parts| ==> sep !in parts[k]
    decreases |s|
  {
    var i := IndexOf(s, sep);
    if i == |s| then [s]
    else
      assert sep !in s[..i] by {
        forall j | 0 <= j < i ensures s[..i][j] != sep { assert s[..i][j] == s[j]; }
      }
      [s[..i]] + SplitOn(s[i + 1..], sep)
  }

  lemma SplitOnAfter(a: string, sep: char, b: string)
    requires sep !in a
    ensures SplitOn(a + [sep] + b, sep) == [a] + SplitOn(b, sep)
  {
    var s := a + [sep] + b;
    IndexOfAfter(a, sep, b);
    assert s[..|a|] == a;
    assert s[|a| + 1..] == b;
  }

  /** A character missing from a string is missing from every piece of it. */
  lemma {:induction false} SplitOnKeepsOut(s: string, sep: char, c: char)
    requires c !in s
    ensures forall k :: 0 <= k < |SplitOn(s, sep)| ==> c !in SplitOn(s, sep)[k]
    decreases |s|
  {
    var i := IndexOf(s, sep);
    if i < |s| {
      var parts, tail := SplitOn(s, sep), SplitOn(s[i + 1..], sep);
      assert parts == [s[..i]] + tail;
      assert c !in s[i + 1..];
      SplitOnKeepsOut(s[i + 1..], sep, c);
      forall k | 0 <= k < |parts| ensures c !in parts[k] {
        if k == 0 {
          assert c !in s[..i];
        } else {
          assert parts[k] == tail[k - 1];
        }
      }
    }
  }

  /** `toUpperCase` on one character, for the ASCII letters the script's
      field names are made of. */
  function AsciiUpper(c: char): (u: char)
    ensures 'a' <= c <= 'z' ==> 'A' <= u <= 'Z' && (u as int) - (c as int) == ('A' as int) - ('a' as int)
    ensures !('a' <= c <= 'z') ==> u == c
  {
    if 'a' <= c <= 'z' then ((c as int) - 32) as char else c
  }

  /** `w.charAt(0).toUpperCase() + w.slice(1)`. */
  function Capitalise(w: string): (r: string)
    ensures |r| == |w|
    ensures w != [] ==> r[0] == AsciiUpper(w[0]) && r[1..] == w[1..]
  {
    if w == [] then [] else [AsciiUpper(w[0])] + w[1..]
  }
}
