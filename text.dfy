/**
 The string operations of the JavaScript runtime that the parsing contexts
 call: String.prototype.trim and Array.prototype.join, written over
 `seq<char>`, together with the character counting used to state what a
 rendered matrix looks like.
 */
module Text {

  /** The characters String.prototype.trim strips from both ends: the
      ECMAScript WhiteSpace set (tab, vertical tab, form feed, space,
      no-break space, byte order mark and the Unicode space separators) and
      the LineTerminator set (line feed, carriage return, line separator,
      paragraph separator). */
  predicate IsSpace(c: char) {
    || c == '\t' || c == '\n' || c == '\U{000B}' || c == '\U{000C}' || c == '\r'
    || c == ' ' || c == '\U{00A0}' || c == '\U{1680}'
    || ('\U{2000}' <= c <= '\U{200A}')
    || c == '\U{2028}' || c == '\U{2029}' || c == '\U{202F}' || c == '\U{205F}'
    || c == '\U{3000}' || c == '\U{FEFF}'
  }

  /** A string that neither starts nor ends with a space character. */
  predicate IsTrimmed(s: string) {
    s == [] || (!IsSpace(s[0]) && !IsSpace(s[|s| - 1]))
  }

  /** How many space characters `s` starts with: all characters before
      that position are spaces, and the one at it (if any) is not. */
  function LeadingSpaces(s: string): (n: nat)
    ensures n <= |s|
    ensures forall k :: 0 <= k < n ==> IsSpace(s[k])
    ensures n == |s| || !IsSpace(s[n])
  {
    if s == [] || !IsSpace(s[0]) then 0 else 1 + LeadingSpaces(s[1..])
  }

  /** Where the trailing space characters of `s` begin: all characters from
      that position on are spaces, and the one just before it (if any) is
      not. */
  function TrailingSpacesStart(s: string): (n: nat)
    ensures n <= |s|
    ensures forall k :: n <= k < |s| ==> IsSpace(s[k])
    ensures n == 0 || !IsSpace(s[n - 1])
  {
    if s == [] || !IsSpace(s[|s| - 1]) then |s| else TrailingSpacesStart(s[..|s| - 1])
  }

  /** String.prototype.trim: the result is a trimmed stretch of `s`, and
      everything outside that stretch is a space character. */
  function Trim(s: string): (r: string)
    ensures IsTrimmed(r)
    ensures var a := LeadingSpaces(s);
      && a + |r| <= |s|
      && r == s[a..a + |r|]
      && (forall k :: 0 <= k < a ==> IsSpace(s[k]))
      && (forall k :: a + |r| <= k < |s| ==> IsSpace(s[k]))
  {
    var a := LeadingSpaces(s);
    if a == |s| then [] else s[a..TrailingSpacesStart(s)]
  }

  /** Trimming a string that is already trimmed changes nothing; in
      particular trimming twice is the same as trimming once. */
  lemma TrimTrimmed(s: string)
    requires IsTrimmed(s)
    ensures Trim(s) == s
  {
  }

  /** A string trims to the empty string exactly when it is made of space
      characters only (what `aggregate.trim().length > 0` tests). */
  lemma TrimEmptyIffBlank(s: string)
    ensures Trim(s) == [] <==> forall k :: 0 <= k < |s| ==> IsSpace(s[k])
  {
  }

  /** Trimming never introduces a character: whatever is absent from `s` is
      absent from its trimmed form. */
  lemma TrimKeepsAbsent(c: char, s: string)
    requires c !in s
    ensures c !in Trim(s)
  {
  }

  /** Array.prototype.join: the parts in order, with `sep` between each two
      neighbours; the empty list joins to the empty string. */
  function Join(parts: seq<string>, sep: string): string
  {
    if |parts| == 0 then ""
    else if |parts| == 1 then parts[0]
    else Join(parts[..|parts| - 1], sep) + sep + parts[|parts| - 1]
  }

  /** Number of occurrences of `c` in `s`. */
  function Count(c: char, s: string): nat
  {
    if s == [] then 0
    else Count(c, s[..|s| - 1]) + (if s[|s| - 1] == c then 1 else 0)
  }

  /** Total number of occurrences of `c` in all of `parts`. */
  function CountAll(c: char, parts: seq<string>): nat
  {
    if parts == [] then 0
    else CountAll(c, parts[..|parts| - 1]) + Count(c, parts[|parts| - 1])
  }

  /** `n` copies of `c`. */
  function Repeat(c: char, n: nat): (r: string)
    ensures |r| == n
    ensures forall k :: 0 <= k < n ==> r[k] == c
  {
    if n == 0 then [] else Repeat(c, n - 1) + [c]
  }

  /** Counting distributes over concatenation. */
  lemma {:induction false} CountConcat(c: char, a: string, b: string)
    ensures Count(c, a + b) == Count(c, a) + Count(c, b)
  {
    if b != [] {
      calc {
        Count(c, a + b);
        { assert (a + b)[..|a + b| - 1] == a + b[..|b| - 1]; }
        Count(c, a + b[..|b| - 1]) + (if b[|b| - 1] == c then 1 else 0);
        { CountConcat(c, a, b[..|b| - 1]); }
        Count(c, a) + Count(c, b);
      }
    } else {
      assert a + b == a;
    }
  }

  /** A character occurs zero times exactly when it is absent. */
  lemma {:induction false} CountZeroIffAbsent(c: char, s: string)
    ensures Count(c, s) == 0 <==> c !in s
  {
    if s != [] {
      CountZeroIffAbsent(c, s[..|s| - 1]);
      assert s == s[..|s| - 1] + [s[|s| - 1]];
    }
  }

  /** A string made only of `c` holds `|s|` occurrences of `c`. */
  lemma {:induction false} CountUniform(c: char, s: string)
    requires forall k :: 0 <= k < |s| ==> s[k] == c
    ensures Count(c, s) == |s|
  {
    if s != [] {
      CountUniform(c, s[..|s| - 1]);
    }
  }

  /** A character absent from every part occurs nowhere in the parts. */
  lemma {:induction false} CountAllAbsent(c: char, parts: seq<string>)
    requires forall k :: 0 <= k < |parts| ==> c !in parts[k]
    ensures CountAll(c, parts) == 0
  {
    if parts != [] {
      CountAllAbsent(c, parts[..|parts| - 1]);
      CountZeroIffAbsent(c, parts[|parts| - 1]);
    }
  }

  /** Occurrences of `c` in a joined list: those in the parts plus one
      occurrence of every `c` in `sep` per separator placed. */
  lemma {:induction false} CountJoin(c: char, parts: seq<string>, sep: string)
    requires |parts| >= 1
    ensures Count(c, Join(parts, sep)) == CountAll(c, parts) + (|parts| - 1) * Count(c, sep)
  {
    var n := |parts|;
    if n == 1 {
      assert parts[..0] == [];
    } else {
      var init, x := parts[..n - 1], parts[n - 1];
      assert Join(parts, sep) == Join(init, sep) + sep + x;
      assert CountAll(c, parts) == CountAll(c, init) + Count(c, x);
      CountJoin(c, init, sep);
      CountConcat(c, Join(init, sep), sep);
      CountConcat(c, Join(init, sep) + sep, x);
      SeparatorsStep(n - 1, Count(c, sep));
    }
  }

  /** One more separator adds its occurrences once more. */
  lemma SeparatorsStep(k: nat, x: nat)
    requires k >= 1
    ensures (k - 1) * x + x == k * x
  {
  }

  /** Appending one more part to a non-empty list puts one separator and the
      new part after the old joined text. */
  lemma {:induction false} JoinSnoc(parts: seq<string>, x: string, sep: string)
    requires |parts| >= 1
    ensures Join(parts + [x], sep) == Join(parts, sep) + sep + x
  {
  }
}
