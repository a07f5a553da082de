/**
 * The PHP string primitives the plugin is built from, on `string` (a sequence of
 * characters): `ltrim` with a character mask, a prefix test (`strpos(...) === 0`),
 * `str_replace`, `explode`, `implode` and ASCII `strtolower`.
 */
module Text {

  /** `strpos(s, p) === 0`: `p` occurs at the very front of `s` (always true of an empty `p`). */
  predicate StartsWith(s: string, p: string)
  {
    |p| <= |s| && s[..|p|] == p
  }

  /** `needle` occurs somewhere in `s`. */
  predicate Occurs(s: string, needle: string)
  {
    exists i :: 0 <= i <= |s| && StartsWith(s[i..], needle)
  }

  /** `ltrim(s, mask)`: drops every leading character that belongs to the mask. */
  function LTrim(s: string, mask: set<char>): (r: string)
    ensures |r| <= |s| && r == s[|s| - |r|..]
    ensures forall i :: 0 <= i < |s| - |r| ==> s[i] in mask
    ensures r == [] || r[0] !in mask
  {
    if s != [] && s[0] in mask then LTrim(s[1..], mask) else s
  }

  /**
   * `str_replace(needle, rep, s)`: scans `s` from the left and replaces every
   * non-overlapping occurrence of `needle`; an empty needle leaves `s` unchanged.
   */
  function ReplaceAll(s: string, needle: string, rep: string): (r: string)
    ensures rep == [] ==> |r| <= |s|
    ensures |rep| == |needle| ==> |r| == |s|
    decreases |s|
  {
    if needle == [] || |s| < |needle| then s
    else if s[..|needle|] == needle then rep + ReplaceAll(s[|needle|..], needle, rep)
    else [s[0]] + ReplaceAll(s[1..], needle, rep)
  }

  /** Every character of `s` passed through `f`. */
  function MapChars(s: string, f: char -> char): string
  {
    seq(|s|, i requires 0 <= i < |s| => f(s[i]))
  }

  /** Total length of a list of strings. */
  function SumLen(ss: seq<string>): nat
  {
    if ss == [] then 0 else |ss[0]| + SumLen(ss[1..])
  }

  /** `implode(sep, parts)`: the parts with one separator between each two, and `""` for no parts. */
  function Join(parts: seq<string>, sep: string): (r: string)
    ensures parts == [] ==> r == []
    ensures parts != [] ==> |r| == SumLen(parts) + |sep| * (|parts| - 1)
  {
    if |parts| == 0 then ""
    else if |parts| == 1 then parts[0]
    else parts[0] + sep + Join(parts[1..], sep)
  }

  /** `explode(sep, s)` for a one-character separator: never empty, and gives `s` back when joined. */
  function Split(s: string, sep: char): (r: seq<string>)
    ensures |r| >= 1
    ensures forall k :: 0 <= k < |r| ==> sep !in r[k]
  {
    if s == [] then [[]]
    else
      var rest := Split(s[1..], sep);
      if s[0] == sep then [[]] + rest
      else [[s[0]] + rest[0]] + rest[1..]
  }

  /** Joining the pieces of `explode` with the separator gives the string back. */
  lemma {:induction false} JoinSplit(s: string, sep: char)
    ensures Join(Split(s, sep), [sep]) == s
  {
    if s != [] {
      JoinSplit(s[1..], sep);
      var rest := Split(s[1..], sep);
      if s[0] != sep && |rest| > 1 {
        assert ([[s[0]] + rest[0]] + rest[1..])[1..] == rest[1..];
      }
    }
  }

  /** ASCII lower-casing of one character, as PHP's `strtolower` does. */
  function LowerChar(c: char): char
  {
    if 'A' <= c <= 'Z' then (c as int + 32) as char else c
  }

  /**
   * `strtolower(s)`: same length, no ASCII upper-case letter left, and only
   * ASCII upper-case letters changed, each to its lower-case letter.
   */
  function Lower(s: string): (r: string)
    ensures |r| == |s|
    ensures forall i :: 0 <= i < |r| ==> !('A' <= r[i] <= 'Z')
    ensures forall i :: 0 <= i < |r| && r[i] != s[i] ==> 'A' <= s[i] <= 'Z' && r[i] as int == s[i] as int + 32
  {
    var r := MapChars(s, LowerChar);
    assert forall i :: 0 <= i < |r| ==> r[i] == LowerChar(s[i]);
    r
  }

  /** `str_replace` of a one-character needle by a one-character replacement maps each character. */
  lemma {:induction false} ReplaceCharIsMap(s: string, a: char, b: char)
    ensures ReplaceAll(s, [a], [b]) == MapChars(s, c => if c == a then b else c)
  {
    if |s| > 0 {
      ReplaceCharIsMap(s[1..], a, b);
    }
  }

  /** Removing a needle never introduces a character. */
  lemma {:induction false} RemoveKeepsChars(s: string, needle: string, c: char)
    requires c in ReplaceAll(s, needle, [])
    ensures c in s
  {
    if needle == [] || |s| < |needle| {
    } else if s[..|needle|] == needle {
      RemoveKeepsChars(s[|needle|..], needle, c);
    } else if c != s[0] {
      RemoveKeepsChars(s[1..], needle, c);
    }
  }

  /** A needle that does not occur is left alone. */
  lemma {:induction false} ReplaceAbsent(s: string, needle: string, rep: string)
    requires !Occurs(s, needle)
    ensures ReplaceAll(s, needle, rep) == s
  {
    if needle == [] || |s| < |needle| {
    } else {
      assert StartsWith(s[0..], needle) ==> Occurs(s, needle);
      assert s[0..] == s;
      ReplaceAbsent(s[1..], needle, rep);
    }
  }

  /** A character of one part is a character of the joined string. */
  lemma {:induction false} PartInJoin(parts: seq<string>, sep: string, k: nat, c: char)
    requires k < |parts| && c in parts[k]
    ensures c in Join(parts, sep)
  {
    if |parts| > 1 && k > 0 {
      PartInJoin(parts[1..], sep, k - 1, c);
    }
  }

  /** `implode` of a longer list adds the separator and the new part at the end. */
  lemma {:induction false} JoinSnoc(parts: seq<string>, sep: string, last: string)
    requires |parts| >= 1
    ensures Join(parts + [last], sep) == Join(parts, sep) + sep + last
  {
    if |parts| == 1 {
      assert parts + [last] == [parts[0], last];
    } else {
      assert (parts + [last])[1..] == parts[1..] + [last];
      JoinSnoc(parts[1..], sep, last);
    }
  }

  /** A character map that keeps the separator commutes with `implode`. */
  lemma {:induction false} MapJoin(parts: seq<string>, sep: char, f: char -> char)
    requires f(sep) == sep
    ensures MapChars(Join(parts, [sep]), f)
         == Join(seq(|parts|, k requires 0 <= k < |parts| => MapChars(parts[k], f)), [sep])
  {
    var mapped := seq(|parts|, k requires 0 <= k < |parts| => MapChars(parts[k], f));
    if |parts| > 1 {
      MapJoin(parts[1..], sep, f);
      assert mapped[1..] == seq(|parts[1..]|, k requires 0 <= k < |parts[1..]| => MapChars(parts[1..][k], f));
      MapConcat(parts[0] + [sep], Join(parts[1..], [sep]), f);
      MapConcat(parts[0], [sep], f);
    }
  }

  lemma MapConcat(a: string, b: string, f: char -> char)
    ensures MapChars(a + b, f) == MapChars(a, f) + MapChars(b, f)
  {
  }

  /** `explode` undoes `implode` when no part holds the separator. */
  lemma {:induction false} SplitJoin(parts: seq<string>, sep: char)
    requires |parts| >= 1
    requires forall k :: 0 <= k < |parts| ==> sep !in parts[k]
    ensures Split(Join(parts, [sep]), sep) == parts
  {
    if |parts| == 1 {
      SplitNoSep(parts[0], sep);
    } else {
      SplitJoin(parts[1..], sep);
      SplitPrefix(parts[0], sep, Join(parts[1..], [sep]));
      assert parts[0] + [sep] + Join(parts[1..], [sep]) == parts[0] + ([sep] + Join(parts[1..], [sep]));
    }
  }

  /** A string without the separator splits into itself. */
  lemma {:induction false} SplitNoSep(s: string, sep: char)
    requires sep !in s
    ensures Split(s, sep) == [s]
  {
    if s != [] {
      SplitNoSep(s[1..], sep);
      assert [s[0]] + s[1..] == s;
    }
  }

  /** Splitting `w + sep + rest`, where `w` holds no separator, starts with `w`. */
  lemma {:induction false} SplitPrefix(w: string, sep: char, rest: string)
    requires sep !in w
    ensures Split(w + ([sep] + rest), sep) == [w] + Split(rest, sep)
  {
    if w == [] {
      assert w + ([sep] + rest) == [sep] + rest;
      assert ([sep] + rest)[1..] == rest;
    } else {
      assert (w + ([sep] + rest))[1..] == w[1..] + ([sep] + rest);
      SplitPrefix(w[1..], sep, rest);
      assert [w[0]] + w[1..] == w;
    }
  }

  /** A string does not start with a prefix whose first character differs from its own. */
  lemma FirstCharDiffers(s: string, p: string)
    requires s != [] && p != [] && s[0] != p[0]
    ensures !StartsWith(s, p)
  {
    if |p| <= |s| {
      assert s[..|p|][0] == s[0];
    }
  }

  /** A needle whose first character is absent from `s` does not occur in it. */
  lemma AbsentFirstChar(s: string, needle: string)
    requires needle != [] && needle[0] !in s
    ensures !Occurs(s, needle)
  {
  }
  /** An occurrence of the needle at the front is replaced, and the scan goes on after it. */
  lemma ReplaceLeading(needle: string, s: string, rep: string)
    requires needle != []
    ensures ReplaceAll(needle + s, needle, rep) == rep + ReplaceAll(s, needle, rep)
  {
    assert (needle + s)[..|needle|] == needle;
    assert (needle + s)[|needle|..] == s;
  }

  /** A word holding no copy of the needle's first character is kept as it is. */
  lemma {:induction false} ReplaceSkipWord(w: string, s: string, needle: string, rep: string)
    requires needle != [] && needle[0] !in w
    ensures ReplaceAll(w + s, needle, rep) == w + ReplaceAll(s, needle, rep)
  {
    if w != [] {
      ReplaceSkipWord(w[1..], s, needle, rep);
      assert (w + s)[1..] == w[1..] + s;
      if |needle| <= |w + s| {
        assert (w + s)[..|needle|][0] == w[0];
      }
      assert [w[0]] + w[1..] == w;
    } else {
      assert w + s == s;
    }
  }
}
