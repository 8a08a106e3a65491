/** The JavaScript string built-ins that the scanner and the login form call:
    String.prototype.trim, toUpperCase (over ASCII letters only), split with
    a one-character separator, and `length`, which counts UTF-16 code units.
    `ToLower` and `IndexOf` are not called by that code; they serve the
    statements and proofs here (lower-case input to the cleaning step, the
    position of the `@` in an e-mail address, the pieces of `split`). */
module JsString {

  /** The WhiteSpace and LineTerminator code points of ECMA-262: what `trim()`
      strips from both ends and what `\s` matches in a regular expression. */
  predicate IsWhiteSpace(c: char) {
    || c == '\t' || c == '\n' || c == '\U{B}' || c == '\U{C}' || c == '\r'
    || c == ' ' || c == '\U{A0}' || c == '\U{1680}'
    || ('\U{2000}' <= c <= '\U{200A}')
    || c == '\U{2028}' || c == '\U{2029}' || c == '\U{202F}' || c == '\U{205F}'
    || c == '\U{3000}' || c == '\U{FEFF}'
  }

  predicate AllWhiteSpace(s: string) {
    forall i :: 0 <= i < |s| ==> IsWhiteSpace(s[i])
  }

  /** Number of white-space characters at the front of `s`. */
  function LeadingSpace(s: string): (k: nat)
    ensures k <= |s|
    ensures AllWhiteSpace(s[..k])
    ensures k < |s| ==> !IsWhiteSpace(s[k])
  {
    if |s| > 0 && IsWhiteSpace(s[0]) then 1 + LeadingSpace(s[1..]) else 0
  }

  /** Number of white-space characters at the end of `s`. */
  function TrailingSpace(s: string): (k: nat)
    ensures k <= |s|
    ensures AllWhiteSpace(s[|s| - k..])
    ensures k < |s| ==> !IsWhiteSpace(s[|s| - 1 - k])
  {
    if |s| > 0 && IsWhiteSpace(s[|s| - 1]) then 1 + TrailingSpace(s[..|s| - 1]) else 0
  }

  /** `s.trim()`: `s` without the white space at either end. The result is
      never longer than `s` and neither of its ends is white space;
      `TrimWitness` locates it inside `s`. */
  function Trim(s: string): (r: string)
    ensures |r| <= |s|
    ensures r == [] || (!IsWhiteSpace(r[0]) && !IsWhiteSpace(r[|r| - 1]))
  {
    var a := LeadingSpace(s);
    var b := |s| - TrailingSpace(s);
    if a < b then s[a..b] else []
  }

  /** A white prefix and a white suffix that meet or overlap cover `s`. */
  lemma WhiteRunsMeet(s: string, a: nat, b: nat)
    requires b <= a <= |s| && AllWhiteSpace(s[..a]) && AllWhiteSpace(s[b..])
    ensures AllWhiteSpace(s)
  {
    forall i | 0 <= i < |s| ensures IsWhiteSpace(s[i]) {
      if i < b {
        assert s[i] == s[..a][i];
      } else {
        assert s[i] == s[b..][i - b];
      }
    }
  }

  /** In an all-white string the front run is the whole string. */
  lemma LeadingSpaceAll(s: string)
    requires AllWhiteSpace(s)
    ensures LeadingSpace(s) == |s|
  {
    assert s[..|s|] == s;
    LeadingSpaceIs(s, |s|);
  }

  /** `Trim(s)` is a contiguous piece of `s` with only white space before and
      after it; the returned `a` is where it starts. */
  lemma TrimWitness(s: string) returns (a: nat)
    ensures a + |Trim(s)| <= |s| && s[a..a + |Trim(s)|] == Trim(s)
    ensures AllWhiteSpace(s[..a]) && AllWhiteSpace(s[a + |Trim(s)|..])
  {
    a := LeadingSpace(s);
    var b := |s| - TrailingSpace(s);
    if a < b {
      assert Trim(s) == s[a..b] && a + (b - a) == b;
    } else {
      WhiteRunsMeet(s, a, b);
      LeadingSpaceAll(s);
      assert Trim(s) == [];
    }
  }

  /** Trimming a string whose ends are not white space gives it back. */
  lemma TrimKeeps(s: string)
    requires s == [] || (!IsWhiteSpace(s[0]) && !IsWhiteSpace(s[|s| - 1]))
    ensures Trim(s) == s
  {
    assert LeadingSpace(s) == 0 && TrailingSpace(s) == 0;
    assert s[0..|s|] == s;
  }

  /** `Trim(s)` is empty exactly when every character of `s` is white space. */
  lemma TrimEmptyIff(s: string)
    ensures Trim(s) == [] <==> AllWhiteSpace(s)
  {
    var a := LeadingSpace(s);
    var b := |s| - TrailingSpace(s);
    if AllWhiteSpace(s) {
      LeadingSpaceAll(s);
    }
    if Trim(s) == [] {
      WhiteRunsMeet(s, a, b);
    }
  }

  /** `LeadingSpace` is the length of the white run that stops at the first
      other character. */
  lemma {:induction false} LeadingSpaceIs(s: string, k: nat)
    requires k <= |s| && AllWhiteSpace(s[..k])
    requires k < |s| ==> !IsWhiteSpace(s[k])
    ensures LeadingSpace(s) == k
    decreases k
  {
    if k > 0 {
      assert IsWhiteSpace(s[..k][0]);
      assert s[1..][..k - 1] == s[1..k];
      LeadingSpaceIs(s[1..], k - 1);
    }
  }

  /** The mirror image of `LeadingSpaceIs`. */
  lemma {:induction false} TrailingSpaceIs(s: string, k: nat)
    requires k <= |s| && AllWhiteSpace(s[|s| - k..])
    requires k < |s| ==> !IsWhiteSpace(s[|s| - 1 - k])
    ensures TrailingSpace(s) == k
    decreases k
  {
    if k > 0 {
      assert IsWhiteSpace(s[|s| - k..][k - 1]);
      var u := s[..|s| - 1];
      assert u[|u| - (k - 1)..] == s[|s| - k..|s| - 1];
      TrailingSpaceIs(u, k - 1);
    }
  }

  /** `Trim(s)` is the only piece of `s` with white space around it and no
      white space at its ends. */
  lemma TrimUnique(s: string, a: nat, r: string)
    requires a + |r| <= |s| && s[a..a + |r|] == r
    requires AllWhiteSpace(s[..a]) && AllWhiteSpace(s[a + |r|..])
    requires r == [] || (!IsWhiteSpace(r[0]) && !IsWhiteSpace(r[|r| - 1]))
    ensures Trim(s) == r
  {
    if r == [] {
      assert AllWhiteSpace(s) by {
        forall i | 0 <= i < |s| ensures IsWhiteSpace(s[i]) {
          if i < a {
            assert s[i] == s[..a][i];
          } else {
            assert s[i] == s[a..][i - a];
          }
        }
      }
      TrimEmptyIff(s);
    } else {
      assert s[a] == r[0];
      LeadingSpaceIs(s, a);
      var k := |s| - (a + |r|);
      assert s[|s| - 1 - k] == r[|r| - 1];
      TrailingSpaceIs(s, k);
    }
  }

  lemma WhiteSpaceConcat(u: string, v: string)
    requires AllWhiteSpace(u) && AllWhiteSpace(v)
    ensures AllWhiteSpace(u + v)
  {
    forall i | 0 <= i < |u + v| ensures IsWhiteSpace((u + v)[i]) {
      if i >= |u| {
        assert (u + v)[i] == v[i - |u|];
      }
    }
  }

  /** A trimmed piece of `s` stays the trimmed piece when white space is added
      around `s`. */
  lemma PaddedAround(pre: string, s: string, post: string, a: nat, r: string)
    requires AllWhiteSpace(pre) && AllWhiteSpace(post)
    requires a + |r| <= |s| && s[a..a + |r|] == r
    requires AllWhiteSpace(s[..a]) && AllWhiteSpace(s[a + |r|..])
    requires r == [] || (!IsWhiteSpace(r[0]) && !IsWhiteSpace(r[|r| - 1]))
    ensures Trim(pre + s + post) == r
  {
    var x := pre + s + post;
    var b := |pre| + a;
    assert x[b..b + |r|] == r;
    assert x[..b] == pre + s[..a];
    assert x[b + |r|..] == s[a + |r|..] + post;
    WhiteSpaceConcat(pre, s[..a]);
    WhiteSpaceConcat(s[a + |r|..], post);
    TrimUnique(x, b, r);
  }

  /** White space added around a string disappears again when it is trimmed. */
  lemma TrimPadded(pre: string, s: string, post: string)
    requires AllWhiteSpace(pre) && AllWhiteSpace(post)
    ensures Trim(pre + s + post) == Trim(s)
  {
    var a := TrimWitness(s);
    PaddedAround(pre, s, post, a, Trim(s));
  }

  /** toUpperCase of one character, for ASCII letters. */
  function UpperChar(c: char): char {
    if 'a' <= c <= 'z' then (c as int - 32) as char else c
  }

  /** Lower-casing of one character, for ASCII letters. */
  function LowerChar(c: char): char {
    if 'A' <= c <= 'Z' then (c as int + 32) as char else c
  }

  /** `s.toUpperCase()`, character by character. */
  function ToUpper(s: string): (r: string)
    ensures |r| == |s|
    ensures forall i {:trigger r[i]} :: 0 <= i < |s| ==> r[i] == UpperChar(s[i])
  {
    if s == [] then [] else [UpperChar(s[0])] + ToUpper(s[1..])
  }

  /** ASCII lower-casing, character by character: the counterpart of
      `ToUpper` used to state that cleaning ignores letter case. */
  function ToLower(s: string): (r: string)
    ensures |r| == |s|
    ensures forall i {:trigger r[i]} :: 0 <= i < |s| ==> r[i] == LowerChar(s[i])
  {
    if s == [] then [] else [LowerChar(s[0])] + ToLower(s[1..])
  }

  predicate HasNoLowerAscii(s: string) {
    forall i :: 0 <= i < |s| ==> !('a' <= s[i] <= 'z')
  }

  /** Upper-casing a string without ASCII lower-case letters gives it back. */
  lemma UpperKeeps(s: string)
    requires HasNoLowerAscii(s)
    ensures ToUpper(s) == s
  {
  }

  /** Lower-casing never turns white space into other characters or back. */
  lemma LowerCharWhiteSpace(c: char)
    ensures IsWhiteSpace(LowerChar(c)) <==> IsWhiteSpace(c)
  {
  }

  /** Lower-casing keeps a white prefix white. */
  lemma LowerWhitePrefix(s: string, a: nat)
    requires a <= |s| && AllWhiteSpace(s[..a])
    ensures AllWhiteSpace(ToLower(s)[..a])
  {
    forall i | 0 <= i < a ensures IsWhiteSpace(ToLower(s)[..a][i]) {
      assert IsWhiteSpace(s[..a][i]);
      LowerCharWhiteSpace(s[i]);
    }
  }

  /** Lower-casing keeps a white suffix white. */
  lemma LowerWhiteSuffix(s: string, b: nat)
    requires b <= |s| && AllWhiteSpace(s[b..])
    ensures AllWhiteSpace(ToLower(s)[b..])
  {
    forall i | 0 <= i < |s| - b ensures IsWhiteSpace(ToLower(s)[b..][i]) {
      assert IsWhiteSpace(s[b..][i]);
      LowerCharWhiteSpace(s[b + i]);
    }
  }

  /** Lower-casing keeps the ends of a trimmed string non-white. */
  lemma LowerEnds(r: string)
    requires r == [] || (!IsWhiteSpace(r[0]) && !IsWhiteSpace(r[|r| - 1]))
    ensures var l := ToLower(r); l == [] || (!IsWhiteSpace(l[0]) && !IsWhiteSpace(l[|l| - 1]))
  {
    if r != [] {
      LowerCharWhiteSpace(r[0]);
      LowerCharWhiteSpace(r[|r| - 1]);
    }
  }

  /** Any string that lower-cases `u` character by character is `ToLower(u)`. */
  lemma LowerPointwise(u: string, m: string)
    requires |m| == |u|
    requires forall k :: 0 <= k < |u| ==> m[k] == LowerChar(u[k])
    ensures m == ToLower(u)
  {
  }

  /** Lower-casing commutes with taking a slice. */
  lemma LowerSlice(s: string, i: nat, j: nat)
    requires i <= j <= |s|
    ensures ToLower(s)[i..j] == ToLower(s[i..j])
  {
    var u := s[i..j];
    var m := ToLower(s)[i..j];
    forall k | 0 <= k < |u| ensures m[k] == LowerChar(u[k]) {
      assert m[k] == ToLower(s)[i + k] && u[k] == s[i + k];
    }
    LowerPointwise(u, m);
  }

  /** A piece with white space around it keeps that shape when everything is
      lower-cased. */
  lemma LowerAround(s: string, a: nat, r: string)
    requires a + |r| <= |s| && s[a..a + |r|] == r
    requires AllWhiteSpace(s[..a]) && AllWhiteSpace(s[a + |r|..])
    requires r == [] || (!IsWhiteSpace(r[0]) && !IsWhiteSpace(r[|r| - 1]))
    ensures Trim(ToLower(s)) == ToLower(r)
  {
    var x := ToLower(s);
    var l := ToLower(r);
    assert |x| == |s| && |l| == |r|;
    LowerSlice(s, a, a + |r|);
    LowerWhitePrefix(s, a);
    LowerWhiteSuffix(s, a + |r|);
    LowerEnds(r);
    TrimUnique(x, a, l);
  }

  /** Trimming and lower-casing can be done in either order. */
  lemma TrimLower(s: string)
    ensures Trim(ToLower(s)) == ToLower(Trim(s))
  {
    var a := TrimWitness(s);
    LowerAround(s, a, Trim(s));
  }

  /** Upper-casing keeps the ends of a trimmed string non-white. */
  lemma UpperEnds(r: string)
    requires r == [] || (!IsWhiteSpace(r[0]) && !IsWhiteSpace(r[|r| - 1]))
    ensures var u := ToUpper(r); u == [] || (!IsWhiteSpace(u[0]) && !IsWhiteSpace(u[|u| - 1]))
  {
  }

  /** Upper-casing twice is upper-casing once. */
  lemma UpperIdempotent(s: string)
    ensures ToUpper(ToUpper(s)) == ToUpper(s)
  {
    var u := ToUpper(s);
    assert HasNoLowerAscii(u) by {
      forall i | 0 <= i < |u| ensures !('a' <= u[i] <= 'z') {
        assert u[i] == UpperChar(s[i]);
      }
    }
    UpperKeeps(u);
  }

  /** Upper-casing forgets an earlier lower-casing. */
  lemma UpperOfLower(s: string)
    ensures ToUpper(ToLower(s)) == ToUpper(s)
  {
    assert forall c :: UpperChar(LowerChar(c)) == UpperChar(c);
  }

  /** The first index of `c` in `s`, or `|s|` when there is none (like
      `indexOf`, which would answer -1): used to define `Split` and to
      locate the `@` of an e-mail address. */
  function IndexOf(s: string, c: char): (i: nat)
    ensures i <= |s|
    ensures c !in s[..i]
    ensures i < |s| ==> s[i] == c
  {
    if |s| == 0 then 0
    else if s[0] == c then 0
    else
      var k := IndexOf(s[1..], c);
      assert s[..k + 1] == [s[0]] + s[1..][..k];
      1 + k
  }

  /** `IndexOf` finds the first occurrence. */
  lemma IndexOfFirst(s: string, c: char, k: nat)
    requires k < |s| && s[k] == c && c !in s[..k]
    ensures IndexOf(s, c) == k
  {
  }

  /** `parts.join(sep)`. */
  function Join(parts: seq<string>, sep: char): string
    requires |parts| >= 1
  {
    if |parts| == 1 then parts[0] else parts[0] + [sep] + Join(parts[1..], sep)
  }

  /** `s.split(sep)`: the pieces between the separators, never fewer than one;
      joining them with `sep` gives `s` back. */
  function Split(s: string, sep: char): (parts: seq<string>)
    ensures |parts| >= 1
    ensures forall i :: 0 <= i < |parts| ==> sep !in parts[i]
    ensures Join(parts, sep) == s
    decreases |s|
  {
    var i := IndexOf(s, sep);
    if i == |s| then
      assert s[..i] == s;
      [s]
    else
      var rest := Split(s[i + 1..], sep);
      assert s == s[..i] + [sep] + s[i + 1..];
      [s[..i]] + rest
  }

  /** Splitting a join of separator-free pieces gives the pieces back. */
  lemma {:induction false} SplitJoin(parts: seq<string>, sep: char)
    requires |parts| >= 1
    requires forall i :: 0 <= i < |parts| ==> sep !in parts[i]
    ensures Split(Join(parts, sep), sep) == parts
    decreases |parts|
  {
    var s := Join(parts, sep);
    var p := parts[0];
    if |parts| == 1 {
      assert IndexOf(s, sep) == |s|;
    } else {
      var tail := Join(parts[1..], sep);
      assert s == p + [sep] + tail;
      assert s[..|p|] == p;
      IndexOfFirst(s, sep, |p|);
      assert s[|p| + 1..] == tail;
      SplitJoin(parts[1..], sep);
    }
  }

  /** `s.length`: code points above U+FFFF take two UTF-16 code units. */
  function Utf16Length(s: string): (n: nat)
    ensures |s| <= n <= 2 * |s|
  {
    if s == [] then 0
    else (if s[0] as int > 0xFFFF then 2 else 1) + Utf16Length(s[1..])
  }

  predicate InBasicPlane(s: string) {
    forall i :: 0 <= i < |s| ==> s[i] as int <= 0xFFFF
  }

  /** For a string of the Basic Multilingual Plane, JavaScript's length is the
      number of characters. */
  lemma {:induction false} BasicPlaneLength(s: string)
    requires InBasicPlane(s)
    ensures Utf16Length(s) == |s|
  {
    if s != [] {
      BasicPlaneLength(s[1..]);
    }
  }
}
