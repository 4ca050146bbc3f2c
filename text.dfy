// String primitives of JavaScript that the console's handlers rely on:
// `trim`, `split(" ")`, `startsWith` and `toLowerCase`.
module Text {

  /** The code points `String.prototype.trim` strips: the WhiteSpace and
      LineTerminator productions of ECMAScript (sections 12.2 and 12.3),
      with the Unicode space separators (category Zs) written out. */
  predicate IsJsWhitespace(c: char) {
    c == '\t' || c == '\n' || c == '\U{000B}' || c == '\U{000C}' || c == '\r'
    || c == ' ' || c == '\U{00A0}' || c == '\U{1680}'
    || ('\U{2000}' <= c <= '\U{200A}')
    || c == '\U{2028}' || c == '\U{2029}' || c == '\U{202F}' || c == '\U{205F}'
    || c == '\U{3000}' || c == '\U{FEFF}'
  }

  /** Every character of `s` is whitespace (the empty string included). */
  predicate IsBlank(s: string) {
    forall i :: 0 <= i < |s| ==> IsJsWhitespace(s[i])
  }

  /** Whitespace in front of a blank string leaves it blank. */
  lemma BlankCons(c: char, a: string)
    requires IsJsWhitespace(c) && IsBlank(a)
    ensures IsBlank([c] + a)
  {
    forall i | 0 <= i < |[c] + a| ensures IsJsWhitespace(([c] + a)[i]) {
      if i > 0 {
        assert ([c] + a)[i] == a[i - 1];
      }
    }
  }

  /** Whitespace after a blank string leaves it blank. */
  lemma BlankSnoc(a: string, c: char)
    requires IsBlank(a) && IsJsWhitespace(c)
    ensures IsBlank(a + [c])
  {
    forall i | 0 <= i < |a + [c]| ensures IsJsWhitespace((a + [c])[i]) {
      if i < |a| {
        assert (a + [c])[i] == a[i];
      }
    }
  }

  /** Drops leading whitespace: the result is a suffix of `s`, what was dropped is
      whitespace, and the result does not start with whitespace. */
  function TrimStart(s: string): (r: string)
    ensures |r| <= |s| && r == s[|s| - |r|..]
    ensures IsBlank(s[..|s| - |r|])
    ensures r == [] || !IsJsWhitespace(r[0])
  {
    if s != [] && IsJsWhitespace(s[0]) then
      var r := TrimStart(s[1..]);
      BlankCons(s[0], s[1..][..|s[1..]| - |r|]);
      assert [s[0]] + s[1..][..|s[1..]| - |r|] == s[..|s| - |r|];
      r
    else s
  }

  /** Drops trailing whitespace: the result is a prefix of `s`, what was dropped is
      whitespace, and the result does not end with whitespace. */
  function TrimEnd(s: string): (r: string)
    ensures |r| <= |s| && r == s[..|r|]
    ensures IsBlank(s[|r|..])
    ensures r == [] || !IsJsWhitespace(r[|r| - 1])
  {
    if s != [] && IsJsWhitespace(s[|s| - 1]) then
      var r := TrimEnd(s[..|s| - 1]);
      assert s[..|s| - 1][..|r|] == s[..|r|];
      BlankSnoc(s[..|s| - 1][|r|..], s[|s| - 1]);
      assert s[|r|..] == s[..|s| - 1][|r|..] + [s[|s| - 1]];
      r
    else s
  }

  /** How many leading characters `trim` drops. */
  function LeadingBlanks(s: string): nat {
    |s| - |TrimStart(s)|
  }

  /** JavaScript's `s.trim()`: no longer than `s`, and neither starting nor ending
      with whitespace. */
  function Trim(s: string): (r: string)
    ensures |r| <= |s|
    ensures r == [] || (!IsJsWhitespace(r[0]) && !IsJsWhitespace(r[|r| - 1]))
  {
    var t := TrimStart(s);
    var r := TrimEnd(t);
    assert r == [] || r[0] == t[0];
    r
  }

  /** A prefix of a suffix of `s` is a slice of `s`. */
  lemma PrefixOfSuffix(s: string, t: string, r: string)
    requires |t| <= |s| && t == s[|s| - |t|..]
    requires |r| <= |t| && r == t[..|r|]
    ensures s[|s| - |t|..|s| - |t| + |r|] == r
  {
    var k := |s| - |t|;
    forall i | 0 <= i < |r|
      ensures s[k..k + |r|][i] == r[i]
    {
      assert r[i] == t[i] == s[k + i];
    }
  }

  /** What `trim` keeps is the slice of `s` after its leading blanks. */
  lemma {:induction false} TrimKeepsSlice(s: string)
    ensures LeadingBlanks(s) + |Trim(s)| <= |s|
    ensures s[LeadingBlanks(s)..LeadingBlanks(s) + |Trim(s)|] == Trim(s)
  {
    PrefixOfSuffix(s, TrimStart(s), TrimEnd(TrimStart(s)));
  }

  /** Only whitespace lies before and after what `trim` keeps. */
  lemma {:induction false} TrimDropsBlanks(s: string)
    ensures LeadingBlanks(s) + |Trim(s)| <= |s|
    ensures IsBlank(s[..LeadingBlanks(s)]) && IsBlank(s[LeadingBlanks(s) + |Trim(s)|..])
  {
    var t := TrimStart(s);
    var r := TrimEnd(t);
    var k := |s| - |t|;
    assert LeadingBlanks(s) == k && Trim(s) == r;
    assert IsBlank(s[k + |r|..]) by {
      assert t == s[k..] && IsBlank(t[|r|..]);
      assert s[k + |r|..] == t[|r|..];
    }
  }

  /** What `trim` keeps is the slice of `s` after its leading blanks, and only
      whitespace lies before and after that slice. */
  lemma TrimIsSlice(s: string)
    ensures LeadingBlanks(s) + |Trim(s)| <= |s|
    ensures s[LeadingBlanks(s)..LeadingBlanks(s) + |Trim(s)|] == Trim(s)
    ensures IsBlank(s[..LeadingBlanks(s)]) && IsBlank(s[LeadingBlanks(s) + |Trim(s)|..])
  {
    TrimKeepsSlice(s);
    TrimDropsBlanks(s);
  }

  /** `!s.trim()` in the source: the trimmed string is empty exactly when `s` is blank. */
  lemma {:induction false} TrimEmptyIffBlank(s: string)
    ensures Trim(s) == [] <==> IsBlank(s)
  {
    TrimIsSlice(s);
    var k := LeadingBlanks(s);
    var r := Trim(s);
    if r == [] {
      // Nothing survives the first trim either, so every character is leading.
      assert k == |s|;
      forall i | 0 <= i < |s| ensures IsJsWhitespace(s[i]) {
        assert s[..k][i] == s[i];
      }
    } else {
      assert s[k..k + |r|][0] == r[0];
    }
  }

  /** `s` begins with `p`, as `s.startsWith(p)`: `p` is no longer than `s` and agrees
      with it character by character. */
  predicate StartsWith(s: string, p: string): (r: bool)
    ensures r <==> |p| <= |s| && forall i :: 0 <= i < |p| ==> s[i] == p[i]
  {
    |p| <= |s| && s[..|p|] == p
  }

  /** ASCII upper case to lower case; everything else unchanged. */
  function LowerChar(c: char): char {
    if 'A' <= c <= 'Z' then (c as int + 32) as char else c
  }

  /** `s.toLowerCase()`, for the ASCII letters. */
  function ToLower(s: string): (r: string)
    ensures |r| == |s|
    ensures forall i :: 0 <= i < |s| ==> r[i] == LowerChar(s[i])
  {
    if s == [] then [] else [LowerChar(s[0])] + ToLower(s[1..])
  }

  /** `s.split(" ")`: the maximal runs of characters other than a single space,
      empty runs included, so there is always at least one piece and the pieces
      are one more than the spaces. */
  function Split(s: string): (r: seq<string>)
    ensures |r| >= 1
    ensures forall i :: 0 <= i < |r| ==> ' ' !in r[i]
  {
    if s == [] then [""]
    else
      var rest := Split(s[1..]);
      if s[0] == ' ' then [""] + rest
      else [[s[0]] + rest[0]] + rest[1..]
  }

  /** `parts.join(" ")`. */
  function Join(parts: seq<string>): string
    requires |parts| >= 1
  {
    if |parts| == 1 then parts[0] else parts[0] + " " + Join(parts[1..])
  }

  /** Splitting loses nothing: joining the pieces with single spaces gives `s` back. */
  lemma {:induction false} JoinSplit(s: string)
    ensures Join(Split(s)) == s
  {
    if s != [] {
      var rest := Split(s[1..]);
      JoinSplit(s[1..]);
      if s[0] == ' ' {
        assert Split(s) == [""] + rest;
        assert Split(s)[1..] == rest;
      } else {
        var r := Split(s);
        assert r[0] == [s[0]] + rest[0];
        if |rest| == 1 {
          assert s == [s[0]] + s[1..];
        } else {
          assert r[1..] == rest[1..];
          calc {
            Join(r);
            r[0] + " " + Join(rest[1..]);
            [s[0]] + (rest[0] + " " + Join(rest[1..]));
            [s[0]] + Join(rest);
            s;
          }
        }
      }
    }
  }

  /** A space-free word glued in front of `t` extends the first piece of `t`. */
  lemma {:induction false} SplitPrefix(a: string, t: string)
    requires ' ' !in a
    ensures Split(a + t) == [a + Split(t)[0]] + Split(t)[1..]
  {
    if a != [] {
      assert (a + t)[1..] == a[1..] + t;
      assert (a + t)[0] == a[0] != ' ';
      SplitPrefix(a[1..], t);
      var r := Split(a[1..] + t);
      assert r[0] == a[1..] + Split(t)[0] && r[1..] == Split(t)[1..];
      assert [a[0]] + r[0] == a + Split(t)[0];
    } else {
      assert a + t == t;
      assert a + Split(t)[0] == Split(t)[0];
      assert Split(t) == [Split(t)[0]] + Split(t)[1..];
    }
  }

  /** Joining space-free pieces and splitting again gives the pieces back. */
  lemma {:induction false} SplitJoin(parts: seq<string>)
    requires |parts| >= 1
    requires forall i :: 0 <= i < |parts| ==> ' ' !in parts[i]
    ensures Split(Join(parts)) == parts
  {
    if |parts| == 1 {
      SplitPrefix(parts[0], "");
      assert parts[0] + "" == parts[0];
      assert Split("") == [""];
    } else {
      var tail := Join(parts[1..]);
      SplitJoin(parts[1..]);
      var spaced := Split(" " + tail);
      assert spaced == [""] + Split(tail) by {
        assert (" " + tail)[1..] == tail;
      }
      assert spaced[0] == "" && spaced[1..] == parts[1..];
      assert Join(parts) == parts[0] + (" " + tail);
      SplitPrefix(parts[0], " " + tail);
      assert parts[0] + spaced[0] == parts[0];
      assert parts == [parts[0]] + parts[1..];
    }
  }

  /** The decimal digit of `n`, as `${n}` renders a number below ten. */
  function Digit(n: nat): (c: char)
    requires n < 10
    ensures '0' <= c <= '9' && c as int - '0' as int == n
  {
    ('0' as int + n) as char
  }
}
