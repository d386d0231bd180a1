/** `cleanString` of bearmap/AugmentedStreetMapGraph.java: keep ASCII letters and spaces, then lowercase. */
module CleanStrings {
  import opened Strings

  /** A character the pattern `[a-zA-Z ]` keeps. */
  predicate Kept(c: char)
  {
    'a' <= c <= 'z' || 'A' <= c <= 'Z' || c == ' '
  }

  /** A character a cleaned string may hold. */
  predicate CleanChar(c: char)
  {
    'a' <= c <= 'z' || c == ' '
  }

  /** `Character.toLowerCase` on the characters that survive the filter. */
  function ToLower(c: char): char
  {
    if 'A' <= c <= 'Z' then (c as int - 'A' as int + 'a' as int) as char else c
  }

  /** `s.replaceAll("[^a-zA-Z ]", "")`. */
  function RemoveOthers(s: string): string
  {
    if s == [] then []
    else if Kept(s[0]) then [s[0]] + RemoveOthers(s[1..])
    else RemoveOthers(s[1..])
  }

  /** `s.toLowerCase()`. */
  function LowerCase(s: string): string
  {
    if s == [] then [] else [ToLower(s[0])] + LowerCase(s[1..])
  }

  /** `cleanString(s)`: only 'a'..'z' and ' ' remain, and the result is never longer than `s`. */
  function CleanString(s: string): (r: string)
    ensures |r| <= |s|
    ensures forall i :: 0 <= i < |r| ==> CleanChar(r[i])
  {
    CleanedChars(s);
    LowerCase(RemoveOthers(s))
  }

  lemma {:induction false} CleanedChars(s: string)
    ensures |LowerCase(RemoveOthers(s))| <= |s|
    ensures forall i :: 0 <= i < |LowerCase(RemoveOthers(s))| ==> CleanChar(LowerCase(RemoveOthers(s))[i])
  {
    if s != [] {
      CleanedChars(s[1..]);
    }
  }

  lemma {:induction false} RemoveOthersKeepsClean(s: string)
    requires forall i :: 0 <= i < |s| ==> CleanChar(s[i])
    ensures RemoveOthers(s) == s
  {
    if s != [] {
      RemoveOthersKeepsClean(s[1..]);
      assert s == [s[0]] + s[1..];
    }
  }

  lemma {:induction false} LowerCaseKeepsClean(s: string)
    requires forall i :: 0 <= i < |s| ==> CleanChar(s[i])
    ensures LowerCase(s) == s
  {
    if s != [] {
      LowerCaseKeepsClean(s[1..]);
      assert s == [s[0]] + s[1..];
    }
  }

  /** A single character survives, lower-cased, exactly when it is a letter or a space. */
  lemma CleanOne(c: char)
    ensures CleanString([c]) == if Kept(c) then [ToLower(c)] else []
  {
    assert [c][1..] == [];
    assert RemoveOthers([c]) == if Kept(c) then [c] else [];
    assert LowerCase([c]) == [ToLower(c)];
  }

  /** A string of letters and spaces keeps every character, in order, lower-cased. */
  lemma {:induction false} CleanKeptOnly(s: string)
    requires forall i :: 0 <= i < |s| ==> Kept(s[i])
    ensures |CleanString(s)| == |s|
    ensures forall i :: 0 <= i < |s| ==> CleanString(s)[i] == ToLower(s[i])
  {
    if s != [] {
      CleanKeptOnly(s[1..]);
      assert CleanString(s) == [ToLower(s[0])] + CleanString(s[1..]);
    }
  }

  /** Cleaning a cleaned string changes nothing. */
  lemma CleanIdempotent(s: string)
    ensures CleanString(CleanString(s)) == CleanString(s)
  {
    var c := CleanString(s);
    RemoveOthersKeepsClean(c);
    LowerCaseKeepsClean(c);
  }

  /** Cleaning distributes over concatenation. */
  lemma {:induction false} CleanAppend(a: string, b: string)
    ensures CleanString(a + b) == CleanString(a) + CleanString(b)
  {
    if a == [] {
      assert a + b == b;
    } else {
      assert (a + b)[0] == a[0] && (a + b)[1..] == a[1..] + b;
      CleanAppend(a[1..], b);
    }
  }

  /** A raw prefix of a name cleans to a prefix of the cleaned name. */
  lemma CleanPrefix(p: string, s: string)
    requires IsPrefix(p, s)
    ensures IsPrefix(CleanString(p), CleanString(s))
  {
    CleanAppend(p, s[|p|..]);
    assert s == p + s[|p|..];
  }
}
