/** The PHP library functions that the Util helpers are built from, modelled
    on strings as sequences of characters:
    - strtolower (ASCII letters only),
    - strtr / str_replace with a one-character search string,
    - str_replace with an empty replacement (one search string, or a list of
      them applied in order),
    - strpos(haystack, needle) === 0, which is the prefix test `needle <= haystack`,
    - dirname on a Unix path,
    - bin2hex, with its inverse hex2bin, which determines it. */
module Builtins {

  datatype Result<T> = Ok(value: T) | Err(error: string)

  // ---------------------------------------------------------------------
  // strtolower

  predicate IsUpper(c: char) { 'A' <= c <= 'Z' }

  /** strtolower on one character: A-Z become a-z, everything else stays. */
  function LowerChar(c: char): char
  {
    if IsUpper(c) then (c as int + 32) as char else c
  }

  function ToLower(s: string): (r: string)
    ensures |r| == |s|
  {
    if s == [] then [] else [LowerChar(s[0])] + ToLower(s[1..])
  }

  lemma {:induction false} ToLowerPointwise(s: string)
    ensures forall i :: 0 <= i < |s| ==> ToLower(s)[i] == LowerChar(s[i])
  {
    if s != [] {
      ToLowerPointwise(s[1..]);
    }
  }

  // ---------------------------------------------------------------------
  // strtr / str_replace with a one-character search string

  /** Every occurrence of `from` becomes `to`; nothing else changes. */
  function ReplaceChar(s: string, from: char, to: char): (r: string)
    ensures |r| == |s|
  {
    if s == [] then []
    else [if s[0] == from then to else s[0]] + ReplaceChar(s[1..], from, to)
  }

  lemma {:induction false} ReplaceCharPointwise(s: string, from: char, to: char)
    ensures forall i :: 0 <= i < |s| ==>
      ReplaceChar(s, from, to)[i] == (if s[i] == from then to else s[i])
  {
    if s != [] {
      ReplaceCharPointwise(s[1..], from, to);
    }
  }

  /** After the replacement the searched character is gone. */
  lemma ReplaceCharRemoves(s: string, from: char, to: char)
    requires from != to
    ensures from !in ReplaceChar(s, from, to)
  {
    ReplaceCharPointwise(s, from, to);
    var r := ReplaceChar(s, from, to);
    forall i | 0 <= i < |r| ensures r[i] != from {
    }
  }

  // ---------------------------------------------------------------------
  // str_replace($search, '', $subject)

  /** `pat` occurs in `s` starting at position `i`. */
  predicate OccursAt(pat: string, s: string, i: int)
  {
    0 <= i && i + |pat| <= |s| && s[i..i + |pat|] == pat
  }

  /** `pat` occurs in `s` at some position. */
  ghost predicate Occurs(pat: string, s: string)
  {
    exists i :: OccursAt(pat, s, i)
  }

  /** str_replace with an empty replacement: scan left to right, drop every
      non-overlapping occurrence of `pat`, and do not rescan what is left.
      An empty search string leaves the subject unchanged. */
  function RemoveAll(s: string, pat: string): (r: string)
    ensures |r| <= |s|
    decreases |s|
  {
    if pat == [] || |s| < |pat| then s
    else if s[..|pat|] == pat then RemoveAll(s[|pat|..], pat)
    else [s[0]] + RemoveAll(s[1..], pat)
  }

  /** Removal introduces no character: the result is a sub-multiset of the subject. */
  lemma {:induction false} RemoveAllIntroducesNothing(s: string, pat: string)
    ensures multiset(RemoveAll(s, pat)) <= multiset(s)
    decreases |s|
  {
    if pat == [] || |s| < |pat| {
    } else if s[..|pat|] == pat {
      RemoveAllIntroducesNothing(s[|pat|..], pat);
      assert s == s[..|pat|] + s[|pat|..];
      assert multiset(s) == multiset(s[..|pat|]) + multiset(s[|pat|..]);
    } else {
      RemoveAllIntroducesNothing(s[1..], pat);
      assert s == [s[0]] + s[1..];
    }
  }

  /** A one-character search string leaves no occurrence of that character. */
  lemma {:induction false} RemoveAllCharGone(s: string, c: char)
    ensures c !in RemoveAll(s, [c])
    decreases |s|
  {
    if |s| >= 1 {
      if s[..1] == [c] {
        RemoveAllCharGone(s[1..], c);
      } else {
        RemoveAllCharGone(s[1..], c);
        assert s[0] != c by { assert s[..1][0] == s[0]; }
      }
    }
  }

  /** A subject in which the search string does not occur comes back unchanged. */
  lemma {:induction false} RemoveAllAbsent(s: string, pat: string)
    requires !Occurs(pat, s)
    ensures RemoveAll(s, pat) == s
    decreases |s|
  {
    if pat != [] && |s| >= |pat| {
      assert s[0..0 + |pat|] == s[..|pat|];
      assert !OccursAt(pat, s, 0);
      assert !Occurs(pat, s[1..]) by {
        forall i | OccursAt(pat, s[1..], i) ensures false {
          assert s[1..][i..i + |pat|] == s[i + 1..i + 1 + |pat|];
          assert OccursAt(pat, s, i + 1);
        }
      }
      RemoveAllAbsent(s[1..], pat);
      assert s == [s[0]] + s[1..];
    }
  }

  /** `pat` occurs at `i` and nowhere before. */
  predicate FirstOccurrence(pat: string, s: string, i: int)
  {
    OccursAt(pat, s, i) && forall j :: 0 <= j < i ==> !OccursAt(pat, s, j)
  }

  /** The first occurrence is removed, everything before it is kept in order,
      and the scan resumes right after it. With RemoveAllAbsent this pins
      RemoveAll down: it keeps the text between the non-overlapping occurrences
      found from the left, and only that. */
  lemma {:induction false} RemoveAllFirstMatch(s: string, pat: string, i: int)
    requires pat != [] && FirstOccurrence(pat, s, i)
    ensures RemoveAll(s, pat) == s[..i] + RemoveAll(s[i + |pat|..], pat)
    decreases i, 1
  {
    if i == 0 {
      RemoveAllMatchAtFront(s, pat);
    } else {
      RemoveAllFirstMatchStep(s, pat, i);
    }
  }

  /** The inductive step of RemoveAllFirstMatch: a first character that starts
      no occurrence is kept in front of what the rest of the subject gives. */
  lemma {:induction false} RemoveAllFirstMatchStep(s: string, pat: string, i: int)
    requires pat != [] && 1 <= i && FirstOccurrence(pat, s, i)
    ensures RemoveAll(s, pat) == s[..i] + RemoveAll(s[i + |pat|..], pat)
    decreases i, 0
  {
    NoEarlierMatchShift(pat, s, i);
    RemoveAllFirstMatch(s[1..], pat, i - 1);
    RemoveAllNoMatchAtFront(s, pat);
    DropFirstSlices(s, pat, i);
    PrependFirst(s, i, RemoveAll(s, pat), RemoveAll(s[1..], pat), RemoveAll(s[i + |pat|..], pat));
  }

  lemma DropFirstSlices(s: string, pat: string, i: int)
    requires 1 <= i && i + |pat| <= |s|
    ensures RemoveAll(s[1..][i - 1 + |pat|..], pat) == RemoveAll(s[i + |pat|..], pat)
  {
    assert s[1..][i - 1 + |pat|..] == s[i + |pat|..];
  }

  lemma PrependFirst(s: string, i: int, whole: string, rest: string, tail: string)
    requires 1 <= i <= |s|
    requires whole == [s[0]] + rest && rest == s[1..][..i - 1] + tail
    ensures whole == s[..i] + tail
  {
    assert [s[0]] + s[1..][..i - 1] == s[..i];
  }

  lemma RemoveAllMatchAtFront(s: string, pat: string)
    requires pat != [] && OccursAt(pat, s, 0)
    ensures RemoveAll(s, pat) == RemoveAll(s[|pat|..], pat)
  {
    assert s[0..0 + |pat|] == s[..|pat|];
  }

  lemma RemoveAllNoMatchAtFront(s: string, pat: string)
    requires pat != [] && |s| >= |pat| && !OccursAt(pat, s, 0)
    ensures RemoveAll(s, pat) == [s[0]] + RemoveAll(s[1..], pat)
  {
    assert s[0..0 + |pat|] == s[..|pat|];
  }

  /** A first occurrence at `i > 0` in `s` is a first occurrence at `i - 1` in `s[1..]`. */
  lemma NoEarlierMatchShift(pat: string, s: string, i: int)
    requires 1 <= i && FirstOccurrence(pat, s, i)
    ensures |s| >= |pat| && !OccursAt(pat, s, 0)
    ensures FirstOccurrence(pat, s[1..], i - 1)
  {
    OccursAtShift(pat, s, i);
    forall j | 0 <= j < i - 1 ensures !OccursAt(pat, s[1..], j) {
      OccursAtShift(pat, s, j + 1);
    }
  }

  /** An occurrence in `s` at a position after the first is an occurrence in
      `s[1..]` one position earlier, and the other way round. */
  lemma OccursAtShift(pat: string, s: string, i: int)
    requires 1 <= i && s != []
    ensures OccursAt(pat, s, i) <==> OccursAt(pat, s[1..], i - 1)
  {
    if i + |pat| <= |s| {
      assert s[1..][i - 1..i - 1 + |pat|] == s[i..i + |pat|];
    }
  }

  /** str_replace(array $search, '', $subject): each search string is
      removed in turn, from the result of the previous one. */
  function RemoveEach(s: string, pats: seq<string>): (r: string)
    ensures |r| <= |s|
    decreases |pats|
  {
    if pats == [] then s else RemoveEach(RemoveAll(s, pats[0]), pats[1..])
  }

  /** The last search string is removed last, from what the others left. */
  lemma {:induction false} RemoveEachLast(s: string, pats: seq<string>)
    requires pats != []
    ensures RemoveEach(s, pats) == RemoveAll(RemoveEach(s, pats[..|pats| - 1]), pats[|pats| - 1])
    decreases |pats|
  {
    if |pats| > 1 {
      RemoveEachLast(RemoveAll(s, pats[0]), pats[1..]);
      assert pats[1..][..|pats[1..]| - 1] == pats[..|pats| - 1][1..];
    }
  }

  /** A subject in which no search string occurs comes back unchanged. */
  lemma {:induction false} RemoveEachAbsent(s: string, pats: seq<string>)
    requires forall k :: 0 <= k < |pats| ==> !Occurs(pats[k], s)
    ensures RemoveEach(s, pats) == s
    decreases |pats|
  {
    if pats != [] {
      RemoveAllAbsent(s, pats[0]);
      assert forall k :: 0 <= k < |pats[1..]| ==> pats[1..][k] == pats[k + 1];
      RemoveEachAbsent(s, pats[1..]);
    }
  }

  // ---------------------------------------------------------------------
  // dirname (Unix)

  function StripTrailingSlashes(s: string): (r: string)
    ensures r <= s
    ensures r == [] || r[|r| - 1] != '/'
    ensures forall i :: |r| <= i < |s| ==> s[i] == '/'
  {
    if s != [] && s[|s| - 1] == '/' then StripTrailingSlashes(s[..|s| - 1]) else s
  }

  function StripTrailingName(s: string): (r: string)
    ensures r <= s
    ensures r == [] || r[|r| - 1] == '/'
    ensures forall i :: |r| <= i < |s| ==> s[i] != '/'
  {
    if s != [] && s[|s| - 1] != '/' then StripTrailingName(s[..|s| - 1]) else s
  }

  /** dirname($path): drop trailing slashes, then the last component, then the
      slashes before it; a path of slashes only, or one whose parent is the
      root, gives "/", and a single relative component gives ".". */
  function Dirname(path: string): (r: string)
    ensures |r| <= |path|
    ensures path != [] ==> r != []
  {
    if path == [] then []
    else
      var noSlash := StripTrailingSlashes(path);
      if noSlash == [] then "/"
      else
        var dir := StripTrailingName(noSlash);
        if dir == [] then "."
        else
          var parent := StripTrailingSlashes(dir);
          if parent == [] then "/" else parent
  }

  lemma {:induction false} StripTrailingNameOfComponent(dir: string, name: string)
    requires '/' !in name
    ensures StripTrailingName(dir + "/" + name) == dir + "/"
    decreases |name|
  {
    if name != [] {
      var s := dir + "/" + name;
      assert s[..|s| - 1] == dir + "/" + name[..|name| - 1];
      assert name[|name| - 1] in name;
      StripTrailingNameOfComponent(dir, name[..|name| - 1]);
    } else {
      assert dir + "/" + name == dir + "/";
    }
  }

  /** The parent of `dir + "/" + name`, for a component name with no slash. */
  lemma DirnameOfChild(dir: string, name: string)
    requires name != [] && '/' !in name
    ensures Dirname(dir + "/" + name) ==
      (if StripTrailingSlashes(dir) == [] then "/" else StripTrailingSlashes(dir))
  {
    var path := dir + "/" + name;
    assert path[|path| - 1] == name[|name| - 1];
    assert name[|name| - 1] in name;
    StripTrailingNameOfComponent(dir, name);
    var d := dir + "/";
    assert d[..|d| - 1] == dir;
  }

  // ---------------------------------------------------------------------
  // bin2hex / hex2bin

  type byte = x: int | 0 <= x < 256

  predicate IsLowerHexDigit(c: char) { '0' <= c <= '9' || 'a' <= c <= 'f' }

  function HexDigit(v: int): (c: char)
    requires 0 <= v < 16
  {
    if v < 10 then ('0' as int + v) as char else ('a' as int + v - 10) as char
  }

  function HexDigitValue(c: char): (v: int)
    requires IsLowerHexDigit(c)
  {
    if c <= '9' then c as int - '0' as int else c as int - 'a' as int + 10
  }

  /** The two directions of one hex digit undo each other. */
  lemma HexDigitRoundTrip(v: int, c: char)
    requires 0 <= v < 16 && IsLowerHexDigit(c)
    ensures IsLowerHexDigit(HexDigit(v)) && HexDigitValue(HexDigit(v)) == v
    ensures 0 <= HexDigitValue(c) < 16 && HexDigit(HexDigitValue(c)) == c
  {
  }

  /** bin2hex: two lower-case hex digits per byte, high nibble first. */
  function Bin2Hex(bytes: seq<byte>): (r: string)
    ensures |r| == 2 * |bytes|
  {
    if bytes == [] then []
    else [HexDigit(bytes[0] / 16), HexDigit(bytes[0] % 16)] + Bin2Hex(bytes[1..])
  }

  predicate IsLowerHex(s: string)
  {
    |s| % 2 == 0 && forall i :: 0 <= i < |s| ==> IsLowerHexDigit(s[i])
  }

  /** hex2bin on lower-case input: the inverse of bin2hex. */
  function Hex2Bin(s: string): (r: seq<byte>)
    requires IsLowerHex(s)
    ensures |r| == |s| / 2
  {
    if s == [] then []
    else
      assert IsLowerHexDigit(s[0]) && IsLowerHexDigit(s[1]);
      [HexDigitValue(s[0]) * 16 + HexDigitValue(s[1])] + Hex2Bin(s[2..])
  }

  /** bin2hex produces only lower-case hex digits. */
  lemma {:induction false} Bin2HexIsLowerHex(bytes: seq<byte>)
    ensures IsLowerHex(Bin2Hex(bytes))
  {
    if bytes != [] {
      Bin2HexIsLowerHex(bytes[1..]);
      HexDigitRoundTrip(bytes[0] / 16, '0');
      HexDigitRoundTrip(bytes[0] % 16, '0');
    }
  }

  /** Decoding the hex text gives back the bytes. */
  lemma {:induction false} Bin2HexRoundTrip(bytes: seq<byte>)
    ensures IsLowerHex(Bin2Hex(bytes)) && Hex2Bin(Bin2Hex(bytes)) == bytes
  {
    Bin2HexIsLowerHex(bytes);
    if bytes != [] {
      var s := Bin2Hex(bytes);
      assert s[2..] == Bin2Hex(bytes[1..]);
      Bin2HexIsLowerHex(bytes[1..]);
      Bin2HexRoundTrip(bytes[1..]);
      HexDigitRoundTrip(bytes[0] / 16, '0');
      HexDigitRoundTrip(bytes[0] % 16, '0');
    }
  }

  /** Every lower-case hex text of even length is bin2hex of its decoding, so
      bin2hex is a bijection onto such texts. */
  lemma {:induction false} Hex2BinRoundTrip(s: string)
    requires IsLowerHex(s)
    ensures Bin2Hex(Hex2Bin(s)) == s
    decreases |s|
  {
    if s != [] {
      HexDigitRoundTrip(0, s[0]);
      HexDigitRoundTrip(0, s[1]);
      var b := HexDigitValue(s[0]) * 16 + HexDigitValue(s[1]);
      assert b / 16 == HexDigitValue(s[0]) && b % 16 == HexDigitValue(s[1]);
      assert IsLowerHex(s[2..]) by {
        forall i | 0 <= i < |s[2..]| ensures IsLowerHexDigit(s[2..][i]) {
          assert s[2..][i] == s[i + 2];
        }
      }
      Hex2BinRoundTrip(s[2..]);
      assert s == [s[0], s[1]] + s[2..];
    }
  }
}
