/**
 * The string primitives the reminder bot relies on: `toLowerCase`,
 * `startsWith`, `split` with a one-character separator and `join`.
 */
module Tokens {

  /** The ASCII capital letters, the only characters lower-casing changes here. */
  predicate IsUpper(c: char)
  {
    'A' <= c <= 'Z'
  }

  /** A string holding no capital letter. */
  predicate IsLower(s: string)
  {
    forall i :: 0 <= i < |s| ==> !IsUpper(s[i])
  }

  function LowerChar(c: char): (r: char)
    ensures !IsUpper(r)
    ensures !IsUpper(c) ==> r == c
  {
    if IsUpper(c) then (c as int - 'A' as int + 'a' as int) as char else c
  }

  /** `s.toLowerCase()`: every capital replaced by its small letter, nothing else touched. */
  function Lower(s: string): (r: string)
    ensures |r| == |s|
    ensures forall i :: 0 <= i < |s| ==> r[i] == LowerChar(s[i])
    ensures IsLower(r)
  {
    if s == [] then [] else [LowerChar(s[0])] + Lower(s[1..])
  }

  /** Lower-casing a string without capitals changes nothing. */
  lemma LowerKeepsLower(s: string)
    requires IsLower(s)
    ensures Lower(s) == s
  {
    assert forall i :: 0 <= i < |s| ==> Lower(s)[i] == s[i];
  }

  /** `s.startsWith(prefix)`: `s` is `prefix` followed by the rest of `s`. */
  predicate StartsWith(s: string, prefix: string)
    ensures StartsWith(s, prefix) <==> |prefix| <= |s| && s == prefix + s[|prefix|..]
  {
    |prefix| <= |s| && s[..|prefix|] == prefix
  }

  /**
   * `s.split(sep)` for a one-character separator: the pieces between
   * consecutive separators, empty pieces included; never an empty list.
   */
  function Split(s: string, sep: char): (parts: seq<string>)
    ensures |parts| >= 1
    ensures forall k :: 0 <= k < |parts| ==> sep !in parts[k]
  {
    if s == [] then [""]
    else
      var rest := Split(s[1..], sep);
      assert s == [s[0]] + s[1..];
      if s[0] == sep then [""] + rest
      else [[s[0]] + rest[0]] + rest[1..]
  }

  /** A split has one more piece than the string has separators. */
  lemma {:induction false} SplitCount(s: string, sep: char)
    ensures |Split(s, sep)| == multiset(s)[sep] + 1
  {
    if s != [] {
      SplitCount(s[1..], sep);
      assert s == [s[0]] + s[1..];
    }
  }

  /** `parts.join(sep)` for a one-character separator: one separator between neighbours. */
  function Join(parts: seq<string>, sep: char): (s: string)
    ensures |parts| >= 1 ==> StartsWith(s, parts[0]) && IsSuffix(parts[|parts| - 1], s)
  {
    if |parts| == 0 then ""
    else if |parts| == 1 then parts[0]
    else parts[0] + [sep] + Join(parts[1..], sep)
  }

  /** Joining separator-free pieces puts exactly one separator between neighbours. */
  lemma {:induction false} JoinCount(parts: seq<string>, sep: char)
    requires |parts| >= 1
    requires forall k :: 0 <= k < |parts| ==> sep !in parts[k]
    ensures multiset(Join(parts, sep))[sep] == |parts| - 1
  {
    if |parts| > 1 {
      JoinCount(parts[1..], sep);
    } else {
      assert sep !in parts[0];
    }
  }

  lemma JoinGlueHead(a: string, parts: seq<string>, sep: char)
    requires |parts| >= 1
    ensures Join([a + parts[0]] + parts[1..], sep) == a + Join(parts, sep)
  {
    var glued := [a + parts[0]] + parts[1..];
    assert glued[1..] == parts[1..];
    if |parts| > 1 {
      assert Join(glued, sep) == (a + parts[0]) + [sep] + Join(parts[1..], sep);
    }
  }

  /** Joining the pieces of a split gives back the original string. */
  lemma {:induction false} JoinSplit(s: string, sep: char)
    ensures Join(Split(s, sep), sep) == s
  {
    if s != [] {
      var rest := Split(s[1..], sep);
      JoinSplit(s[1..], sep);
      assert s == [s[0]] + s[1..];
      if s[0] == sep {
        assert ([""] + rest)[1..] == rest;
      } else {
        JoinGlueHead([s[0]], rest, sep);
      }
    }
  }

  /** `t` is a tail end of `s`. */
  predicate IsSuffix(t: string, s: string)
  {
    |t| <= |s| && s[|s| - |t|..] == t
  }

  /** Re-joining the pieces of a split from any piece onward gives a tail end of the string. */
  lemma {:induction false} JoinSplitSuffix(s: string, sep: char, k: nat)
    requires k < |Split(s, sep)|
    ensures IsSuffix(Join(Split(s, sep)[k..], sep), s)
  {
    if k == 0 {
      JoinSplit(s, sep);
      assert Split(s, sep)[0..] == Split(s, sep);
    } else if s != [] {
      var rest := Split(s[1..], sep);
      assert s == [s[0]] + s[1..];
      if s[0] == sep {
        assert Split(s, sep) == [""] + rest;
        assert ([""] + rest)[k..] == rest[k - 1..];
        JoinSplitSuffix(s[1..], sep, k - 1);
      } else {
        assert Split(s, sep) == [[s[0]] + rest[0]] + rest[1..];
        assert ([[s[0]] + rest[0]] + rest[1..])[k..] == rest[k..];
        JoinSplitSuffix(s[1..], sep, k);
      }
    }
  }

  /** A string without the separator splits into itself alone. */
  lemma {:induction false} SplitWithoutSep(p: string, sep: char)
    requires sep !in p
    ensures Split(p, sep) == [p]
  {
    if p != [] {
      SplitWithoutSep(p[1..], sep);
      assert p == [p[0]] + p[1..];
    }
  }

  /** Splitting at the first separator: the piece before it, then the split of the rest. */
  lemma {:induction false} SplitPrefix(p: string, u: string, sep: char)
    requires sep !in p
    ensures Split(p + [sep] + u, sep) == [p] + Split(u, sep)
  {
    var s := p + [sep] + u;
    if p == [] {
      assert s[1..] == u;
    } else {
      assert s[1..] == p[1..] + [sep] + u;
      SplitPrefix(p[1..], u, sep);
      assert [p[0]] + p[1..] == p;
    }
  }

  /** The same, stated with the index of the first separator. */
  lemma SplitAt(s: string, k: nat, sep: char)
    requires k < |s| && s[k] == sep && sep !in s[..k]
    ensures Split(s, sep) == [s[..k]] + Split(s[k + 1..], sep)
  {
    assert s == s[..k] + [sep] + s[k + 1..];
    SplitPrefix(s[..k], s[k + 1..], sep);
  }

  /** Splitting a join of separator-free pieces gives back the pieces. */
  lemma {:induction false} SplitJoin(parts: seq<string>, sep: char)
    requires |parts| >= 1
    requires forall k :: 0 <= k < |parts| ==> sep !in parts[k]
    ensures Split(Join(parts, sep), sep) == parts
  {
    if |parts| == 1 {
      SplitWithoutSep(parts[0], sep);
    } else {
      SplitJoin(parts[1..], sep);
      SplitPrefix(parts[0], Join(parts[1..], sep), sep);
      assert [parts[0]] + parts[1..] == parts;
    }
  }

  /** Pieces of a string without capitals have no capitals. */
  lemma {:induction false} SplitKeepsLower(s: string, sep: char)
    requires IsLower(s)
    ensures forall k :: 0 <= k < |Split(s, sep)| ==> IsLower(Split(s, sep)[k])
  {
    if s != [] {
      SplitKeepsLower(s[1..], sep);
    }
  }

  /** Joining pieces without capitals, with a separator that is not one, has no capitals. */
  lemma {:induction false} JoinKeepsLower(parts: seq<string>, sep: char)
    requires !IsUpper(sep)
    requires forall k :: 0 <= k < |parts| ==> IsLower(parts[k])
    ensures IsLower(Join(parts, sep))
  {
    if |parts| > 1 {
      JoinKeepsLower(parts[1..], sep);
      assert IsLower(parts[0]);
      ConcatKeepsLower(parts[0], [sep]);
      ConcatKeepsLower(parts[0] + [sep], Join(parts[1..], sep));
    } else if |parts| == 1 {
      assert IsLower(parts[0]);
    }
  }

  lemma ConcatKeepsLower(a: string, b: string)
    requires IsLower(a) && IsLower(b)
    ensures IsLower(a + b)
  {
    forall i | 0 <= i < |a + b|
      ensures !IsUpper((a + b)[i])
    {
      if i < |a| { assert (a + b)[i] == a[i]; } else { assert (a + b)[i] == b[i - |a|]; }
    }
  }

  /** Lower-casing works piece by piece. */
  lemma LowerConcat(a: string, b: string)
    ensures Lower(a + b) == Lower(a) + Lower(b)
  {
    assert forall i :: 0 <= i < |a + b| ==> Lower(a + b)[i] == (Lower(a) + Lower(b))[i];
  }
}
