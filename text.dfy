/** String helpers the catalog relies on: Python's `str.lower` (restricted to
    ASCII), Python's ordering of strings, the `in` substring test and the
    file-name base derived from a title. */
module Text {

  /** `c.lower()` for ASCII letters; every other character is left alone. */
  function LowerChar(c: char): char {
    if 'A' <= c <= 'Z' then (c as int + 32) as char else c
  }

  predicate IsLowerChar(c: char) {
    !('A' <= c <= 'Z')
  }

  /** `s.lower()`, character by character. */
  function Lower(s: string): (r: string)
    ensures |r| == |s|
  {
    if s == [] then [] else [LowerChar(s[0])] + Lower(s[1..])
  }

  lemma {:induction false} LowerAt(s: string, i: nat)
    requires i < |s|
    ensures Lower(s)[i] == LowerChar(s[i])
  {
    if i > 0 {
      LowerAt(s[1..], i - 1);
    }
  }

  /** Lower-casing leaves no upper-case ASCII letter and is idempotent. */
  lemma {:induction false} LowerIsLower(s: string)
    ensures forall i :: 0 <= i < |s| ==> IsLowerChar(Lower(s)[i])
    ensures Lower(Lower(s)) == Lower(s)
  {
    if s != [] {
      LowerIsLower(s[1..]);
      assert Lower(s) == [LowerChar(s[0])] + Lower(s[1..]);
      assert Lower(s)[1..] == Lower(s[1..]);
    }
  }

  lemma {:induction false} LowerAppend(a: string, b: string)
    ensures Lower(a + b) == Lower(a) + Lower(b)
  {
    if a != [] {
      assert (a + b)[0] == a[0] && (a + b)[1..] == a[1..] + b;
      LowerAppend(a[1..], b);
      calc {
        Lower(a + b);
        [LowerChar(a[0])] + Lower(a[1..] + b);
        [LowerChar(a[0])] + (Lower(a[1..]) + Lower(b));
        ([LowerChar(a[0])] + Lower(a[1..])) + Lower(b);
        Lower(a) + Lower(b);
      }
    } else {
      assert a + b == b;
    }
  }

  lemma {:induction false} LowerSlice(s: string, i: nat, j: nat)
    requires i <= j <= |s|
    ensures Lower(s[i..j]) == Lower(s)[i..j]
  {
    assert s == s[..i] + s[i..j] + s[j..];
    LowerAppend(s[..i] + s[i..j], s[j..]);
    LowerAppend(s[..i], s[i..j]);
  }

  /** Python's `a < b` on strings: lexicographic on code points, a proper
      prefix coming first. */
  predicate StrLess(a: string, b: string) {
    if b == [] then false
    else if a == [] then true
    else if a[0] < b[0] then true
    else a[0] == b[0] && StrLess(a[1..], b[1..])
  }

  lemma {:induction false} StrLessIrreflexive(a: string)
    ensures !StrLess(a, a)
  {
    if a != [] {
      StrLessIrreflexive(a[1..]);
    }
  }

  lemma {:induction false} StrLessTransitive(a: string, b: string, c: string)
    requires StrLess(a, b) && StrLess(b, c)
    ensures StrLess(a, c)
  {
    if a != [] && a[0] == b[0] && b[0] == c[0] {
      StrLessTransitive(a[1..], b[1..], c[1..]);
    }
  }

  /** Any two different strings are ordered one way or the other. */
  lemma {:induction false} StrLessTotal(a: string, b: string)
    ensures a == b || StrLess(a, b) || StrLess(b, a)
  {
    if a != [] && b != [] && a[0] == b[0] {
      StrLessTotal(a[1..], b[1..]);
      if a[1..] == b[1..] {
        assert a == [a[0]] + a[1..] && b == [b[0]] + b[1..];
      }
    }
  }

  lemma StrLessAsymmetric(a: string, b: string)
    requires StrLess(a, b)
    ensures !StrLess(b, a)
  {
    if StrLess(b, a) {
      StrLessTransitive(a, b, a);
      StrLessIrreflexive(a);
    }
  }

  /** `needle` occurs in `hay` starting at position `i`. */
  predicate OccursAt(needle: string, hay: string, i: int) {
    0 <= i && i + |needle| <= |hay| && hay[i..i + |needle|] == needle
  }

  /** Python's `needle in hay` for strings, as a scan from the left. */
  predicate Contains(needle: string, hay: string)
    decreases |hay|
  {
    |needle| <= |hay| && (hay[..|needle|] == needle || Contains(needle, hay[1..]))
  }

  /** `Contains` holds exactly when the needle occurs at some position. */
  lemma {:induction false} ContainsIff(needle: string, hay: string)
    ensures Contains(needle, hay) <==> exists i :: OccursAt(needle, hay, i)
    decreases |hay|
  {
    var n := |needle|;
    if n <= |hay| && hay[..n] != needle {
      ContainsIff(needle, hay[1..]);
      if Contains(needle, hay[1..]) {
        var i :| OccursAt(needle, hay[1..], i);
        assert hay[1..][i..i + n] == hay[i + 1..i + 1 + n];
        assert OccursAt(needle, hay, i + 1);
      }
      if exists i :: OccursAt(needle, hay, i) {
        var i :| OccursAt(needle, hay, i);
        assert i != 0;
        assert hay[1..][i - 1..i - 1 + n] == hay[i..i + n];
        assert OccursAt(needle, hay[1..], i - 1);
      }
    } else if n <= |hay| {
      assert OccursAt(needle, hay, 0);
    }
  }

  /** Lower-casing both sides keeps an occurrence. */
  lemma ContainsLower(needle: string, hay: string)
    requires Contains(needle, hay)
    ensures Contains(Lower(needle), Lower(hay))
  {
    ContainsIff(needle, hay);
    var i :| OccursAt(needle, hay, i);
    LowerSlice(hay, i, i + |needle|);
    assert OccursAt(Lower(needle), Lower(hay), i);
    ContainsIff(Lower(needle), Lower(hay));
  }

  /** Every string occurs in itself; the empty string occurs everywhere. */
  lemma ContainsSelfAndEmpty(s: string, t: string)
    ensures Contains(s, s) && Contains("", t)
  {
    assert OccursAt(s, s, 0);
    assert OccursAt("", t, 0);
    ContainsIff(s, s);
    ContainsIff("", t);
  }

  /** `s.replace(" ", "_")`. */
  function SpacesToUnderscores(s: string): (r: string)
    ensures |r| == |s|
  {
    if s == [] then [] else [if s[0] == ' ' then '_' else s[0]] + SpacesToUnderscores(s[1..])
  }

  /** `title.replace(" ", "_").lower()`: the name the PDF and the cover of a
      book are stored under, before the extension. */
  function FileBase(title: string): (r: string)
    ensures |r| == |title|
  {
    Lower(SpacesToUnderscores(title))
  }

  /** The base has the title's length, no space and no upper-case letter,
      and maps each title character on its own. */
  lemma {:induction false} FileBaseShape(title: string)
    ensures |FileBase(title)| == |title|
    ensures forall i :: 0 <= i < |title| ==>
      FileBase(title)[i] == (if title[i] == ' ' then '_' else LowerChar(title[i]))
    ensures ' ' !in FileBase(title)
    ensures FileBase(FileBase(title)) == FileBase(title)
  {
    if title != [] {
      FileBaseShape(title[1..]);
      assert FileBase(title) == [FileBase(title)[0]] + FileBase(title[1..]);
    }
  }

  /** Two different titles can share a base, so their files overwrite each
      other: "Dune" and "dune" both become "dune". */
  lemma FileBaseCollides()
    ensures "Dune" != "dune" && FileBase("Dune") == FileBase("dune")
  {
    assert SpacesToUnderscores("Dune") == "Dune";
    assert SpacesToUnderscores("dune") == "dune";
    assert Lower("e") == "e";
    assert Lower("ne") == "ne";
    assert Lower("une") == "une";
    assert Lower("Dune") == "dune";
    assert Lower("dune") == "dune";
  }
}
