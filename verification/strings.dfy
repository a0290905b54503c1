/**
 The string primitives the resolver is built from, with the JavaScript
 semantics the resolver relies on:
 - `ToLower`, an ASCII-only model of `String.prototype.toLowerCase`;
 - `Contains`, the model of `String.prototype.includes` (the empty string
   occurs in every string);
 - `Split`, the model of `String.prototype.split` with a one-character
   separator, which keeps empty fields.
 */
module Strings {

  /** ASCII lower-casing of one character; every other character is left unchanged. */
  function Lower(c: char): (r: char)
    ensures !('A' <= r <= 'Z')
    ensures ('a' <= r <= 'z') <==> ('a' <= c <= 'z' || 'A' <= c <= 'Z')
    ensures r == c || ('A' <= c <= 'Z' && r as int - c as int == 'a' as int - 'A' as int)
  {
    if 'A' <= c <= 'Z' then (c as int + 32) as char else c
  }

  /** Lower-cases every character of `s`, position by position. */
  function ToLower(s: string): (r: string)
    ensures |r| == |s|
  {
    seq(|s|, i requires 0 <= i < |s| => Lower(s[i]))
  }

  /**
   What lower-casing does to each position: the result has no upper-case
   ASCII letter, and each character is either the one it replaces or that
   upper-case letter moved to its lower-case counterpart.
   */
  lemma ToLowerMovesOnlyUpper(s: string)
    ensures |ToLower(s)| == |s|
    ensures forall i :: 0 <= i < |s| ==> !('A' <= ToLower(s)[i] <= 'Z')
    ensures forall i :: 0 <= i < |s| ==>
              ToLower(s)[i] == s[i] || ('A' <= s[i] <= 'Z' && ToLower(s)[i] as int - s[i] as int == 'a' as int - 'A' as int)
  {
  }

  /** A lower-cased string holds no upper-case ASCII letter, and lower-casing it again changes nothing. */
  lemma ToLowerIdempotent(s: string)
    ensures forall i :: 0 <= i < |s| ==> !('A' <= ToLower(s)[i] <= 'Z')
    ensures ToLower(ToLower(s)) == ToLower(s)
  {
  }

  /** Lower-casing moves no separator: position `i` holds `sep` after lower-casing exactly when it did before. */
  lemma ToLowerKeepsNonLetters(s: string, sep: char)
    requires !('A' <= sep <= 'Z') && !('a' <= sep <= 'z')
    ensures forall i :: 0 <= i < |s| ==> (ToLower(s)[i] == sep <==> s[i] == sep)
  {
  }

  /** `t` occurs in `s` starting at position `i`. */
  ghost predicate OccursAt(s: string, t: string, i: int)
  {
    0 <= i && i + |t| <= |s| && s[i..i + |t|] == t
  }

  /** `s.includes(t)`: `t` is a prefix of `s` or of one of its suffixes. */
  predicate Contains(s: string, t: string)
    decreases |s|
  {
    t <= s || (|s| > 0 && Contains(s[1..], t))
  }

  /** `t` occurs in the lower-cased `s` at position `i` when it matches the lower-cased characters there. */
  lemma OccursLowered(s: string, t: string, i: nat)
    requires i + |t| <= |s|
    requires forall j :: 0 <= j < |t| ==> Lower(s[i + j]) == t[j]
    ensures OccursAt(ToLower(s), t, i)
  {
    assert ToLower(s)[i..i + |t|] == t;
  }

  /** A character that no character of `s` lower-cases to is absent from the lower-cased `s`. */
  lemma LoweredLacksChar(s: string, c: char)
    requires forall j :: 0 <= j < |s| ==> Lower(s[j]) != c
    ensures c !in ToLower(s)
  {
  }

  /** Two characters that are never adjacent once lower-cased are never adjacent in the lower-cased `s`. */
  lemma LoweredLacksPair(s: string, a: char, b: char)
    requires forall j :: 0 <= j < |s| - 1 ==> !(Lower(s[j]) == a && Lower(s[j + 1]) == b)
    ensures !HasPair(ToLower(s), a, b)
  {
  }

  /** An occurrence at position `i` makes `Contains` hold. */
  lemma {:induction false} OccursThenContains(s: string, t: string, i: int)
    requires OccursAt(s, t, i)
    ensures Contains(s, t)
    decreases i
  {
    if i == 0 {
      assert t <= s;
    } else {
      assert s[1..][i - 1..i - 1 + |t|] == s[i..i + |t|];
      OccursThenContains(s[1..], t, i - 1);
    }
  }

  /** When `Contains` holds, `t` occurs at some position of `s`. */
  lemma {:induction false} ContainsThenOccurs(s: string, t: string)
    requires Contains(s, t)
    ensures exists i :: OccursAt(s, t, i)
    decreases |s|
  {
    if t <= s {
      assert OccursAt(s, t, 0);
    } else {
      ContainsThenOccurs(s[1..], t);
      var i :| OccursAt(s[1..], t, i);
      assert s[1..][i..i + |t|] == s[i + 1..i + 1 + |t|];
      assert OccursAt(s, t, i + 1);
    }
  }

  /** `Contains` holds exactly when `t` occurs in `s` at some position. */
  lemma ContainsIffOccurs(s: string, t: string)
    ensures Contains(s, t) <==> exists i :: OccursAt(s, t, i)
  {
    if Contains(s, t) {
      ContainsThenOccurs(s, t);
    }
    forall i | OccursAt(s, t, i) ensures Contains(s, t) {
      OccursThenContains(s, t, i);
    }
  }

  /** The empty string is contained in every string. */
  lemma ContainsEmpty(s: string)
    ensures Contains(s, "")
  {
  }

  /** Every character of a contained needle is a character of the haystack. */
  lemma ContainedCharsOccur(s: string, t: string, c: char)
    requires Contains(s, t) && c in t
    ensures c in s
  {
    ContainsThenOccurs(s, t);
    var i :| OccursAt(s, t, i);
    var j :| 0 <= j < |t| && t[j] == c;
    assert s[i..i + |t|][j] == c;
  }

  /** A needle holding a character the haystack lacks is not contained in it. */
  lemma ContainsNeedsChar(s: string, t: string, c: char)
    requires c in t && c !in s
    ensures !Contains(s, t)
  {
    if Contains(s, t) {
      ContainedCharsOccur(s, t, c);
    }
  }

  /** `a` followed directly by `b` somewhere in `s`. */
  predicate HasPair(s: string, a: char, b: char)
  {
    exists i :: 0 <= i < |s| - 1 && s[i] == a && s[i + 1] == b
  }

  /** Two adjacent characters of a contained needle are adjacent in the haystack too. */
  lemma ContainedPairsOccur(s: string, t: string, j: nat)
    requires Contains(s, t) && j + 1 < |t|
    ensures HasPair(s, t[j], t[j + 1])
  {
    ContainsThenOccurs(s, t);
    var i :| OccursAt(s, t, i);
    assert s[i..i + |t|][j] == s[i + j];
    assert s[i..i + |t|][j + 1] == s[i + j + 1];
  }

  /** A needle holding two adjacent characters that are never adjacent in the haystack is not contained in it. */
  lemma ContainsNeedsPair(s: string, t: string, j: nat)
    requires j + 1 < |t| && !HasPair(s, t[j], t[j + 1])
    ensures !Contains(s, t)
  {
    if Contains(s, t) {
      ContainedPairsOccur(s, t, j);
    }
  }

  /**
   `s.split([sep])`: the fields between separators, in order. Empty fields
   are kept, so the result is never empty and an empty `s` gives `[""]`.
   */
  function Split(s: string, sep: char): (r: seq<string>)
    ensures |r| >= 1
    ensures forall k :: 0 <= k < |r| ==> sep !in r[k]
    decreases |s|
  {
    if s == [] then [[]]
    else
      var rest := Split(s[1..], sep);
      if s[0] == sep then [[]] + rest
      else [[s[0]] + rest[0]] + rest[1..]
  }

  /** `fields.join(sep)`: the fields with one separator between each two neighbours. */
  function Join(fields: seq<string>, sep: char): string
    requires |fields| >= 1
    decreases |fields|
  {
    if |fields| == 1 then fields[0] else fields[0] + [sep] + Join(fields[1..], sep)
  }

  /** Joining the fields of a split with the same separator restores the original string. */
  lemma {:induction false} JoinSplit(s: string, sep: char)
    ensures Join(Split(s, sep), sep) == s
    decreases |s|
  {
    if s != [] {
      JoinSplit(s[1..], sep);
      var rest := Split(s[1..], sep);
      if s[0] != sep {
        if |rest| == 1 {
        } else {
          assert Join(rest, sep) == rest[0] + [sep] + Join(rest[1..], sep);
          assert ([s[0]] + rest[0]) + [sep] + Join(rest[1..], sep) == [s[0]] + Join(rest, sep);
        }
      }
    }
  }

  /** A leading separator closes an empty first field. */
  lemma SplitAfterSep(s: string, sep: char)
    ensures Split([sep] + s, sep) == [[]] + Split(s, sep)
  {
    assert ([sep] + s)[1..] == s;
  }

  /** A leading non-separator character opens the first field. */
  lemma SplitAfterOther(c: char, s: string, sep: char)
    requires c != sep
    ensures Split([c] + s, sep) == [[c] + Split(s, sep)[0]] + Split(s, sep)[1..]
  {
    assert ([c] + s)[1..] == s;
  }

  /** Moving the first character of the first field out of a join. */
  lemma JoinFirstChar(fields: seq<string>, sep: char)
    requires |fields| >= 1 && fields[0] != []
    ensures Join(fields, sep) == [fields[0][0]] + Join([fields[0][1..]] + fields[1..], sep)
  {
    var tail := [fields[0][1..]] + fields[1..];
    assert tail[1..] == fields[1..];
    assert fields[0] == [fields[0][0]] + fields[0][1..];
  }

  /** Splitting a join of separator-free fields gives back exactly those fields. */
  lemma {:induction false} SplitJoin(fields: seq<string>, sep: char)
    requires |fields| >= 1
    requires forall k :: 0 <= k < |fields| ==> sep !in fields[k]
    ensures Split(Join(fields, sep), sep) == fields
    decreases |fields|, |fields[0]|
  {
    var f := fields[0];
    if f == [] {
      if |fields| > 1 {
        SplitJoin(fields[1..], sep);
        assert Join(fields, sep) == [sep] + Join(fields[1..], sep);
        SplitAfterSep(Join(fields[1..], sep), sep);
        assert [[]] + fields[1..] == fields;
      }
    } else {
      var tail := [f[1..]] + fields[1..];
      assert sep !in f[1..] by {
        assert forall x :: x in f[1..] ==> x in f;
      }
      assert forall k :: 1 <= k < |tail| ==> tail[k] == fields[k];
      SplitJoin(tail, sep);
      JoinFirstChar(fields, sep);
      assert f[0] != sep by { assert f[0] in f; }
      SplitAfterOther(f[0], Join(tail, sep), sep);
      assert Split(Join(tail, sep), sep)[0] == f[1..] && Split(Join(tail, sep), sep)[1..] == fields[1..];
      assert [f[0]] + f[1..] == f;
      assert [f] + fields[1..] == fields;
    }
  }

  /** A string without the separator is a single field. */
  lemma {:induction false} SplitWithoutSep(t: string, sep: char)
    requires sep !in t
    ensures Split(t, sep) == [t]
    decreases |t|
  {
    if t != [] {
      assert sep !in t[1..] by {
        assert forall x :: x in t[1..] ==> x in t;
      }
      SplitWithoutSep(t[1..], sep);
      assert t[0] != sep by { assert t[0] in t; }
      assert [t[0]] + t[1..] == t;
    }
  }

  /** Prepending to the first field commutes with appending more fields. */
  lemma ExtendFirstField(c: char, left: seq<string>, right: seq<string>)
    requires |left| >= 1
    ensures [[c] + (left + right)[0]] + (left + right)[1..] == ([[c] + left[0]] + left[1..]) + right
  {
    assert (left + right)[0] == left[0];
    assert (left + right)[1..] == left[1..] + right;
  }

  /** Splitting at one separator splits the two sides independently. */
  lemma {:induction false} SplitAtSep(x: string, y: string, sep: char)
    ensures Split(x + [sep] + y, sep) == Split(x, sep) + Split(y, sep)
    decreases |x|
  {
    if x == [] {
      assert x + [sep] + y == [sep] + y;
      SplitAfterSep(y, sep);
    } else {
      var c := x[0];
      var rest := x[1..] + [sep] + y;
      assert x + [sep] + y == [c] + rest;
      assert x == [c] + x[1..];
      SplitAtSep(x[1..], y, sep);
      if c == sep {
        SplitAfterSep(rest, sep);
        SplitAfterSep(x[1..], sep);
      } else {
        SplitAfterOther(c, rest, sep);
        SplitAfterOther(c, x[1..], sep);
        ExtendFirstField(c, Split(x[1..], sep), Split(y, sep));
      }
    }
  }

  /** A separator-free piece followed by a separator (or the end of the string) is the first field. */
  lemma FirstFieldOf(t: string, b: string, sep: char)
    requires sep !in t
    requires b == [] || b[0] == sep
    ensures Split(t + b, sep)[0] == t
  {
    SplitWithoutSep(t, sep);
    if b == [] {
      assert t + b == t;
    } else {
      assert t + b == t + [sep] + b[1..];
      SplitAtSep(t, b[1..], sep);
    }
  }

  /** A separator-free piece with a separator (or an end of the string) on each side is one of the fields. */
  lemma FieldInSplit(a: string, t: string, b: string, sep: char)
    requires sep !in t
    requires a == [] || a[|a| - 1] == sep
    requires b == [] || b[0] == sep
    ensures t in Split(a + t + b, sep)
  {
    FirstFieldOf(t, b, sep);
    if a == [] {
      assert a + t + b == t + b;
    } else {
      var a' := a[..|a| - 1];
      assert a + t + b == a' + [sep] + (t + b);
      SplitAtSep(a', t + b, sep);
      assert Split(a + t + b, sep)[|Split(a', sep)|] == t;
    }
  }

  /** A separator-free piece at position `i`, bounded by separators or the ends of `s`, is one of the fields. */
  lemma FieldAt(s: string, t: string, i: nat, sep: char)
    requires OccursAt(s, t, i) && sep !in t
    requires i == 0 || s[i - 1] == sep
    requires i + |t| == |s| || s[i + |t|] == sep
    ensures t in Split(s, sep)
  {
    assert s == s[..i] + t + s[i + |t|..];
    FieldInSplit(s[..i], t, s[i + |t|..], sep);
  }

  /** One field more than there are separators. */
  lemma {:induction false} SplitCount(s: string, sep: char)
    ensures |Split(s, sep)| == multiset(s)[sep] + 1
    decreases |s|
  {
    if s != [] {
      SplitCount(s[1..], sep);
      assert s == [s[0]] + s[1..];
      assert multiset(s) == multiset([s[0]]) + multiset(s[1..]);
    }
  }

  /** Some separator of `s` is its last character or is directly followed by another separator. */
  predicate EmptyFieldAfterSep(s: string, sep: char)
  {
    exists i :: 0 <= i < |s| && s[i] == sep && (i + 1 == |s| || s[i + 1] == sep)
  }

  /** The first field is empty exactly when `s` is empty or starts with the separator. */
  lemma FirstFieldEmpty(s: string, sep: char)
    ensures Split(s, sep)[0] == [] <==> (s == [] || s[0] == sep)
  {
  }

  /** A field after the first is empty exactly when some separator ends `s` or is doubled. */
  lemma {:induction false} LaterFieldEmpty(s: string, sep: char)
    ensures [] in Split(s, sep)[1..] <==> EmptyFieldAfterSep(s, sep)
    decreases |s|
  {
    if s != [] {
      var tl := s[1..];
      var rest := Split(tl, sep);
      LaterFieldEmpty(tl, sep);
      FirstFieldEmpty(tl, sep);
      assert EmptyFieldAfterSep(tl, sep) ==> EmptyFieldAfterSep(s, sep) by {
        if EmptyFieldAfterSep(tl, sep) {
          var i :| 0 <= i < |tl| && tl[i] == sep && (i + 1 == |tl| || tl[i + 1] == sep);
          assert s[i + 1] == sep && (i + 2 == |s| || s[i + 2] == sep);
        }
      }
      assert EmptyFieldAfterSep(s, sep) && !(s[0] == sep && (tl == [] || tl[0] == sep)) ==> EmptyFieldAfterSep(tl, sep) by {
        if EmptyFieldAfterSep(s, sep) && !(s[0] == sep && (tl == [] || tl[0] == sep)) {
          var i :| 0 <= i < |s| && s[i] == sep && (i + 1 == |s| || s[i + 1] == sep);
          assert i != 0;
          assert tl[i - 1] == sep && (i == |tl| || tl[i] == sep);
        }
      }
      if s[0] == sep {
        assert Split(s, sep)[1..] == rest;
        assert [] in rest <==> rest[0] == [] || [] in rest[1..] by {
          assert rest == [rest[0]] + rest[1..];
        }
      } else {
        assert Split(s, sep)[1..] == rest[1..];
        assert !EmptyFieldAfterSep(s, sep) || EmptyFieldAfterSep(tl, sep);
      }
    }
  }

  /**
   The split has an empty field exactly when `s` is empty, starts with the
   separator, ends with it, or holds two separators in a row.
   */
  lemma EmptyFieldIff(s: string, sep: char)
    ensures [] in Split(s, sep) <==> (s == [] || s[0] == sep || EmptyFieldAfterSep(s, sep))
  {
    var r := Split(s, sep);
    FirstFieldEmpty(s, sep);
    LaterFieldEmpty(s, sep);
    assert r == [r[0]] + r[1..];
  }
}
