/**
 * The string helpers of FWMFW::Utils (Source/Utils.cxx): trimming by a
 * character predicate, character replacement, and the prefix, suffix and
 * substring tests. Strings are sequences of characters; the UTF-8/UTF-16
 * conversions of the same file are the identity in this model.
 */
module Utils {
  import opened Wrappers

  /** The characters std::isspace accepts in the "C" locale. */
  predicate IsSpace(c: char)
  {
    c == ' ' || c == '\t' || c == '\n' || c == '\U{000B}' || c == '\U{000C}' || c == '\r'
  }

  /** The predicate the driver trims directory lines with. */
  predicate IsBackslash(c: char)
  {
    c == '\\'
  }

  // ---------------------------------------------------------------------
  // trimChars / trimWhiteSpaces
  // ---------------------------------------------------------------------

  /** Length of the longest prefix of `s` whose characters all satisfy `pred`. */
  function LeadingRun(s: string, pred: char -> bool): (n: nat)
    ensures n <= |s|
    ensures forall i :: 0 <= i < n ==> pred(s[i])
    ensures n < |s| ==> !pred(s[n])
  {
    if s == [] || !pred(s[0]) then 0 else 1 + LeadingRun(s[1..], pred)
  }

  /** Length of the longest suffix of `s` whose characters all satisfy `pred`. */
  function TrailingRun(s: string, pred: char -> bool): (n: nat)
    ensures n <= |s|
    ensures forall i :: |s| - n <= i < |s| ==> pred(s[i])
    ensures n < |s| ==> !pred(s[|s| - 1 - n])
  {
    if s == [] || !pred(s[|s| - 1]) then 0 else 1 + TrailingRun(s[..|s| - 1], pred)
  }

  /** A leading run is determined by where the first failing character stands. */
  lemma {:induction false} LeadingRunIs(s: string, pred: char -> bool, n: nat)
    requires n <= |s| && (forall i :: 0 <= i < n ==> pred(s[i])) && (n == |s| || !pred(s[n]))
    ensures LeadingRun(s, pred) == n
  {
    if n > 0 {
      LeadingRunIs(s[1..], pred, n - 1);
    }
  }

  /** A trailing run is determined by where the last failing character stands. */
  lemma {:induction false} TrailingRunIs(s: string, pred: char -> bool, n: nat)
    requires n <= |s| && (forall i :: |s| - n <= i < |s| ==> pred(s[i])) && (n == |s| || !pred(s[|s| - 1 - n]))
    ensures TrailingRun(s, pred) == n
  {
    if n > 0 {
      TrailingRunIs(s[..|s| - 1], pred, n - 1);
    }
  }

  /**
   * What trimming is meant to produce: `s` without its leading run and its
   * trailing run of characters satisfying `pred`. The result is the
   * contiguous slice of `s` starting at the end of the leading run; it is
   * empty exactly when every character satisfies `pred`, and otherwise it
   * starts and ends with a character that fails `pred`.
   */
  function Trimmed(s: string, pred: char -> bool): (r: string)
    ensures LeadingRun(s, pred) + |r| <= |s|
    ensures r == s[LeadingRun(s, pred)..LeadingRun(s, pred) + |r|]
    ensures forall i :: LeadingRun(s, pred) + |r| <= i < |s| ==> pred(s[i])
    ensures r == [] <==> forall i :: 0 <= i < |s| ==> pred(s[i])
    ensures r != [] ==> !pred(r[0]) && !pred(r[|r| - 1])
  {
    var t := s[LeadingRun(s, pred)..];
    t[..|t| - TrailingRun(t, pred)]
  }

  /** Trimming a trimmed string changes nothing. */
  lemma TrimmedIdempotent(s: string, pred: char -> bool)
    ensures Trimmed(Trimmed(s, pred), pred) == Trimmed(s, pred)
  {
    var r := Trimmed(s, pred);
    if r != [] {
      assert LeadingRun(r, pred) == 0;
      assert TrailingRun(r, pred) == 0;
    }
  }

  /** The character `s[i]`, or the terminating NUL that std::string yields at index `|s|`. */
  function CharAt(s: string, i: nat): char
    requires i <= |s|
  {
    if i < |s| then s[i] else '\0'
  }

  /**
   * Utils::trimChars exactly as written. The first loop reads
   * `trimmed[0]`, which for an empty string is the terminating NUL, and
   * `substr(1)` of an empty string throws; the second loop reads
   * `trimmed[trimmed.length() - 1]`, which for an empty string is an
   * out-of-bounds read. `None` stands for either: the call has no result.
   * It has none exactly when the input is non-empty and every character
   * satisfies the predicate.
   */
  method TrimCharsAsWritten(str: string, trimPred: char -> bool) returns (r: Option<string>)
    ensures str == [] ==> r == Some(str)
    ensures r.None? <==> str != [] && forall i :: 0 <= i < |str| ==> trimPred(str[i])
    ensures r.Some? ==> r.value == Trimmed(str, trimPred)
  {
    if |str| == 0 {
      return Some(str);
    }
    var trimmed := str;
    ghost var lo := 0;
    while trimPred(CharAt(trimmed, 0))
      invariant lo <= |str| && trimmed == str[lo..]
      invariant forall i :: 0 <= i < lo ==> trimPred(str[i])
      decreases |trimmed|
    {
      if |trimmed| == 0 {
        // substr(1) on an empty string throws std::out_of_range
        return None;
      }
      trimmed := trimmed[1..];
      lo := lo + 1;
    }
    LeadingRunIs(str, trimPred, lo);
    ghost var u := trimmed;
    while true
      invariant |trimmed| <= |u| && trimmed == u[..|trimmed|]
      invariant forall i :: |trimmed| <= i < |u| ==> trimPred(u[i])
      decreases |trimmed|
    {
      if |trimmed| == 0 {
        // trimmed[trimmed.length() - 1] reads outside the string
        return None;
      }
      if !trimPred(trimmed[|trimmed| - 1]) {
        break;
      }
      trimmed := trimmed[..|trimmed| - 1];
    }
    TrailingRunIs(u, trimPred, |u| - |trimmed|);
    return Some(trimmed);
  }

  /**
   * Utils::trimChars with the guard the code evidently intends: each loop
   * stops at the empty string, so trimming a string whose characters all
   * satisfy the predicate yields the empty string.
   */
  method TrimChars(str: string, trimPred: char -> bool) returns (trimmed: string)
    ensures str == [] ==> trimmed == str
    ensures trimmed == Trimmed(str, trimPred)
  {
    if |str| == 0 {
      return str;
    }
    trimmed := str;
    ghost var lo := 0;
    while |trimmed| > 0 && trimPred(trimmed[0])
      invariant lo <= |str| && trimmed == str[lo..]
      invariant forall i :: 0 <= i < lo ==> trimPred(str[i])
      decreases |trimmed|
    {
      trimmed := trimmed[1..];
      lo := lo + 1;
    }
    LeadingRunIs(str, trimPred, lo);
    ghost var u := trimmed;
    while |trimmed| > 0 && trimPred(trimmed[|trimmed| - 1])
      invariant |trimmed| <= |u| && trimmed == u[..|trimmed|]
      invariant forall i :: |trimmed| <= i < |u| ==> trimPred(u[i])
      decreases |trimmed|
    {
      trimmed := trimmed[..|trimmed| - 1];
    }
    TrailingRunIs(u, trimPred, |u| - |trimmed|);
  }

  /** Utils::trimWhiteSpaces: trimming by std::isspace. */
  method TrimWhiteSpaces(str: string) returns (trimmed: string)
    ensures trimmed == Trimmed(str, IsSpace)
  {
    trimmed := TrimChars(str, IsSpace);
  }

  /**
   * A whitespace-only line makes the code as written read outside the
   * string, while the intended trim yields the empty string, which the
   * driver skips.
   */
  lemma BlankLineHasNoTrimAsWritten()
    ensures var line := "  ";
            line != [] && (forall i :: 0 <= i < |line| ==> IsSpace(line[i])) && Trimmed(line, IsSpace) == []
  {
  }

  // ---------------------------------------------------------------------
  // replaceChars
  // ---------------------------------------------------------------------

  /**
   * The result of Utils::replaceChars: occurrences of `findChar` become
   * `replacement`, all of them, or only the first when `stopAtFirstHit`.
   * The length is preserved and every position that did not hold
   * `findChar` is unchanged.
   */
  function Replaced(str: string, findChar: char, replacement: char, stopAtFirstHit: bool): (r: string)
    ensures |r| == |str|
    ensures forall i :: 0 <= i < |str| && str[i] != findChar ==> r[i] == str[i]
    ensures !stopAtFirstHit ==> forall i :: 0 <= i < |str| && str[i] == findChar ==> r[i] == replacement
    ensures stopAtFirstHit ==>
      forall i :: 0 <= i < |str| && str[i] == findChar ==>
        r[i] == if findChar in str[..i] then findChar else replacement
  {
    if str == [] then []
    else if str[0] == findChar then
      [replacement] + if stopAtFirstHit then str[1..] else Replaced(str[1..], findChar, replacement, stopAtFirstHit)
    else
      assert forall i :: 1 <= i < |str| ==> str[1..][..i - 1] == str[..i][1..];
      [str[0]] + Replaced(str[1..], findChar, replacement, stopAtFirstHit)
  }

  /** After replacing every occurrence, none is left (unless it is its own replacement). */
  lemma ReplacedAllLeavesNone(str: string, findChar: char, replacement: char)
    requires findChar != replacement
    ensures findChar !in Replaced(str, findChar, replacement, false)
  {
    var r := Replaced(str, findChar, replacement, false);
    forall i | 0 <= i < |r| ensures r[i] != findChar {
    }
  }

  /** With `stopAtFirstHit`, exactly the first occurrence is replaced. */
  lemma ReplacedFirstOnly(str: string, findChar: char, replacement: char, k: nat)
    requires k < |str| && str[k] == findChar && findChar !in str[..k]
    ensures var r := Replaced(str, findChar, replacement, true);
            r[..k] == str[..k] && r[k] == replacement && r[k + 1..] == str[k + 1..]
  {
    var r := Replaced(str, findChar, replacement, true);
    forall i | k < i < |str| ensures r[i] == str[i] {
      assert str[..i][k] == findChar;
    }
  }

  /** Utils::replaceChars: a left-to-right scan that rewrites `result[idx]` in place. */
  method ReplaceChars(str: string, findChar: char, replacement: char, stopAtFirstHit: bool) returns (result: string)
    ensures result == Replaced(str, findChar, replacement, stopAtFirstHit)
  {
    if |str| == 0 {
      return str;
    }
    result := str;
    var idx := 0;
    while idx < |result|
      invariant idx <= |result| == |str|
      invariant result[idx..] == str[idx..]
      invariant forall i :: 0 <= i < idx ==> result[i] == if str[i] == findChar then replacement else str[i]
      invariant stopAtFirstHit ==> findChar !in str[..idx]
    {
      if result[idx] == findChar {
        result := result[idx := replacement];
        if stopAtFirstHit {
          ReplacedFirstOnly(str, findChar, replacement, idx);
          assert result == str[..idx] + [replacement] + str[idx + 1..];
          return;
        }
      }
      idx := idx + 1;
    }
  }

  // ---------------------------------------------------------------------
  // stringStartsWith / stringEndsWith / stringContains
  // ---------------------------------------------------------------------

  /** Utils::stringStartsWith: `beginning` is a prefix of `str`. */
  function StartsWith(str: string, beginning: string): (r: bool)
    ensures r <==> beginning <= str
    ensures |str| < |beginning| ==> !r
    ensures beginning == [] ==> r
    ensures r ==> str == beginning + str[|beginning|..]
  {
    if |str| < |beginning| then false else str[..|beginning|] == beginning
  }

  /** Utils::stringEndsWith: `ending` is a suffix of `str`. */
  function EndsWith(str: string, ending: string): (r: bool)
    ensures r <==> |ending| <= |str| && str[..|str| - |ending|] + ending == str
    ensures |str| < |ending| ==> !r
    ensures ending == [] ==> r
  {
    if |str| < |ending| then false
    else
      assert str == str[..|str| - |ending|] + str[|str| - |ending|..];
      str[|str| - |ending|..] == ending
  }

  /** `strToFind` occurs in `str` at index `i`. */
  predicate OccursAt(str: string, strToFind: string, i: nat)
  {
    i + |strToFind| <= |str| && str[i..i + |strToFind|] == strToFind
  }

  /** std::string::find(strToFind, from): the first index at or after `from` where `strToFind` occurs. */
  function Find(str: string, strToFind: string, from: nat): (r: Option<nat>)
    ensures r.Some? ==> from <= r.value && OccursAt(str, strToFind, r.value)
    ensures r.Some? ==> forall i :: from <= i < r.value ==> !OccursAt(str, strToFind, i)
    ensures r.None? ==> forall i :: from <= i ==> !OccursAt(str, strToFind, i)
    decreases |str| - from
  {
    if from + |strToFind| > |str| then None
    else if str[from..from + |strToFind|] == strToFind then Some(from)
    else Find(str, strToFind, from + 1)
  }

  /** Utils::stringContains: `strToFind` occurs as a contiguous substring of `str`. */
  function Contains(str: string, strToFind: string): (r: bool)
    ensures r <==> exists i :: OccursAt(str, strToFind, i)
    ensures |str| < |strToFind| ==> !r
  {
    if |str| < |strToFind| then false else Find(str, strToFind, 0).Some?
  }
}
