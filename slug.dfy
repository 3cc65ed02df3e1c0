/**
 * `slugify` of src/lib/actions.js: a chain of regular-expression replacements
 * that turns a shop name into the path segment of its public URL.
 */
module Slug {
  import opened JsString
  import Seqs

  predicate IsHyphen(c: char) { c == '-' }

  /** The class `[\w\-]`: what survives the second replacement. */
  predicate IsWordOrHyphen(c: char) { IsWordChar(c) || c == '-' }

  /** The characters a slug is made of: `[a-z0-9_-]`. */
  predicate IsSlugChar(c: char) { IsAsciiLower(c) || '0' <= c <= '9' || c == '_' || c == '-' }

  predicate NoDoubleHyphen(s: string)
  {
    forall i :: 0 <= i < |s| - 1 ==> !(s[i] == '-' && s[i + 1] == '-')
  }

  /** The shape every slug has: its alphabet, no hyphen at either end, no two hyphens in a row. */
  predicate IsSlug(s: string)
  {
    && (forall i :: 0 <= i < |s| ==> IsSlugChar(s[i]))
    && (s == [] || (s[0] != '-' && s[|s| - 1] != '-'))
    && NoDoubleHyphen(s)
  }

  /** The suffix of `s` left after dropping its leading run of `inRun` characters. */
  function DropRun(s: string, inRun: char -> bool): (r: string)
    ensures |r| <= |s|
    ensures s != [] && inRun(s[0]) ==> |r| < |s|
  {
    if s != [] && inRun(s[0]) then DropRun(s[1..], inRun) else s
  }

  /** What `DropRun` leaves: a suffix, after a dropped prefix of class characters, that does not start with one. */
  lemma {:induction false} DropRunShape(s: string, inRun: char -> bool)
    ensures var r := DropRun(s, inRun);
      && r == s[|s| - |r|..]
      && (forall i :: 0 <= i < |s| - |r| ==> inRun(s[i]))
      && (r == [] || !inRun(r[0]))
  {
    if s != [] && inRun(s[0]) {
      DropRunShape(s[1..], inRun);
    }
  }

  /**
   * `.replace(/R+/g, '-')` for a character class R: every maximal run of
   * characters in the class becomes one hyphen; everything else is kept.
   */
  function HyphenateRuns(s: string, inRun: char -> bool): string
    decreases |s|
  {
    if s == [] then []
    else if inRun(s[0]) then "-" + HyphenateRuns(DropRun(s, inRun), inRun)
    else [s[0]] + HyphenateRuns(s[1..], inRun)
  }

  /** Replacing runs adds only hyphens and keeps every character outside the class. */
  lemma {:induction false} HyphenateRunsChars(s: string, inRun: char -> bool)
    ensures forall c :: c in HyphenateRuns(s, inRun) ==> c == '-' || (c in s && !inRun(c))
    ensures forall c :: c in s && !inRun(c) ==> c in HyphenateRuns(s, inRun)
    decreases |s|
  {
    if s != [] {
      if inRun(s[0]) {
        var d := DropRun(s, inRun);
        DropRunShape(s, inRun);
        HyphenateRunsChars(d, inRun);
        forall c | c in s && !inRun(c) ensures c in d {
          var i :| 0 <= i < |s| && s[i] == c;
          assert d[i - (|s| - |d|)] == c;
        }
      } else {
        HyphenateRunsChars(s[1..], inRun);
      }
    }
  }

  /** `.replace(/-+$/, '')`: the prefix of `s` left after dropping its trailing hyphens. */
  function DropTrailingHyphens(s: string): (r: string)
    ensures |r| <= |s|
  {
    if s != [] && s[|s| - 1] == '-' then DropTrailingHyphens(s[..|s| - 1]) else s
  }

  /** What `DropTrailingHyphens` leaves: a prefix, before a dropped run of hyphens, that does not end with one. */
  lemma {:induction false} DropTrailingHyphensShape(s: string)
    ensures var r := DropTrailingHyphens(s);
      && r == s[..|r|]
      && (forall i :: |r| <= i < |s| ==> s[i] == '-')
      && (r == [] || r[|r| - 1] != '-')
  {
    if s != [] && s[|s| - 1] == '-' {
      DropTrailingHyphensShape(s[..|s| - 1]);
    }
  }

  /** `/\s+/g -> '-'`: each run of whitespace becomes a hyphen. */
  function HyphenateSpaces(s: string): string { HyphenateRuns(s, IsSpace) }

  /** `/[^\w\-]+/g -> ''`: everything outside `[A-Za-z0-9_-]` is deleted. */
  function StripNonWord(s: string): string { Seqs.Filter(s, IsWordOrHyphen) }

  /** `/\-\-+/g -> '-'`: each run of hyphens becomes one hyphen. */
  function CollapseHyphens(s: string): string { HyphenateRuns(s, IsHyphen) }

  /** `/^-+/ -> ''` followed by `/-+$/ -> ''`. */
  function TrimHyphens(s: string): string { DropTrailingHyphens(DropRun(s, IsHyphen)) }

  /** `slugify(text)`: an empty text gives an empty slug; otherwise the replacements in order. */
  function Slugify(text: string): string
  {
    if text == [] then [] else TrimHyphens(CollapseHyphens(StripNonWord(HyphenateSpaces(ToLower(text)))))
  }

  /** After `/\-\-+/g -> '-'` no two hyphens are adjacent. */
  lemma {:induction false} CollapsedHasNoDoubleHyphen(s: string)
    ensures NoDoubleHyphen(HyphenateRuns(s, IsHyphen))
    decreases |s|
  {
    if s != [] {
      if s[0] == '-' {
        var d := DropRun(s, IsHyphen);
        DropRunShape(s, IsHyphen);
        CollapsedHasNoDoubleHyphen(d);
        if d != [] {
          assert HyphenateRuns(d, IsHyphen)[0] == d[0];
        }
      } else {
        CollapsedHasNoDoubleHyphen(s[1..]);
      }
    }
  }

  /** Trimming keeps exactly the characters other than the leading and trailing hyphens. */
  lemma TrimHyphensShape(s: string)
    requires NoDoubleHyphen(s)
    ensures var r := TrimHyphens(s);
      && (forall c :: c in r ==> c in s)
      && (forall c :: c in s && c != '-' ==> c in r)
      && (r == [] || (r[0] != '-' && r[|r| - 1] != '-'))
      && NoDoubleHyphen(r)
  {
    var r := TrimHyphens(s);
    var k := TrimHyphensWindow(s);
    forall c | c in s && c != '-' ensures c in r {
      var i :| 0 <= i < |s| && s[i] == c;
      assert k <= i < k + |r|;
      assert r[i - k] == c;
    }
    forall i | 0 <= i < |r| - 1 ensures !(r[i] == '-' && r[i + 1] == '-') {
      assert r[i] == s[k + i] && r[i + 1] == s[k + i + 1];
    }
  }

  /** Trimming keeps a window `s[k..k + |r|]` with only hyphens outside it and none at its ends. */
  lemma TrimHyphensWindow(s: string) returns (k: nat)
    ensures var r := TrimHyphens(s);
      && k + |r| <= |s| && r == s[k..k + |r|]
      && (forall i :: 0 <= i < k ==> s[i] == '-')
      && (forall i :: k + |r| <= i < |s| ==> s[i] == '-')
      && (r == [] || (r[0] != '-' && r[|r| - 1] != '-'))
  {
    var h := DropRun(s, IsHyphen);
    DropRunShape(s, IsHyphen);
    var r := DropTrailingHyphens(h);
    DropTrailingHyphensShape(h);
    assert r == TrimHyphens(s);
    k := |s| - |h|;
    assert h == s[k..];
    assert r == h[..|r|];
    forall i | 0 <= i < |r| ensures r[i] == s[k + i] {
      assert r[i] == h[i] == s[k + i];
    }
    assert r == s[k..k + |r|];
    forall i | k + |r| <= i < |s| ensures s[i] == '-' {
      assert s[i] == h[i - k];
    }
  }

  /** The characters left after the first three replacements: hyphens and lower-case word characters of the name. */
  lemma StrippedChars(text: string)
    ensures var kept := StripNonWord(HyphenateSpaces(ToLower(text)));
      && (forall c :: c in kept ==> IsSlugChar(c) && (c == '-' || exists i :: 0 <= i < |text| && c == ToLowerChar(text[i])))
      && (forall i :: 0 <= i < |text| && IsWordChar(text[i]) ==> ToLowerChar(text[i]) in kept)
  {
    var lower := ToLower(text);
    HyphenateRunsChars(lower, IsSpace);
    forall c | c in lower ensures !IsAsciiUpper(c) && exists i :: 0 <= i < |text| && c == ToLowerChar(text[i]) {
      var i :| 0 <= i < |lower| && lower[i] == c;
    }
    forall i | 0 <= i < |text| && IsWordChar(text[i]) ensures ToLowerChar(text[i]) in lower {
      assert lower[i] == ToLowerChar(text[i]);
    }
  }

  /** Every character of a slug is one of `[a-z0-9_-]`; the underscore survives because `\w` includes it. */
  lemma SlugShape(text: string)
    ensures IsSlug(Slugify(text))
  {
    if text != [] {
      var kept := StripNonWord(HyphenateSpaces(ToLower(text)));
      var collapsed := CollapseHyphens(kept);
      StrippedChars(text);
      HyphenateRunsChars(kept, IsHyphen);
      CollapsedHasNoDoubleHyphen(kept);
      TrimHyphensShape(collapsed);
      var r := Slugify(text);
      forall i | 0 <= i < |r| ensures IsSlugChar(r[i]) {
        assert r[i] in collapsed;
      }
    }
  }

  /** Replacing runs of a class that occurs only as single hyphens changes nothing. */
  lemma {:induction false} HyphenateRunsIdentity(s: string, inRun: char -> bool)
    requires forall i :: 0 <= i < |s| && inRun(s[i]) ==> s[i] == '-' && (i + 1 == |s| || !inRun(s[i + 1]))
    ensures HyphenateRuns(s, inRun) == s
    decreases |s|
  {
    if s != [] {
      if inRun(s[0]) {
        assert DropRun(s, inRun) == s[1..] by {
          if |s| > 1 { assert !inRun(s[1]); }
        }
      }
      HyphenateRunsIdentity(s[1..], inRun);
    }
  }

  /** Slugifying a slug gives it back: the transform is idempotent. */
  lemma SlugifyIdempotent(text: string)
    ensures Slugify(Slugify(text)) == Slugify(text)
  {
    SlugShape(text);
    SlugIsFixpoint(Slugify(text));
  }

  /** Every replacement leaves a string of slug shape as it is. */
  lemma SlugIsFixpoint(s: string)
    requires IsSlug(s)
    ensures Slugify(s) == s
  {
    if s != [] {
      SlugStagesFix(s);
    }
  }

  lemma SlugStagesFix(s: string)
    requires IsSlug(s)
    ensures ToLower(s) == s && HyphenateSpaces(s) == s && StripNonWord(s) == s
    ensures CollapseHyphens(s) == s && TrimHyphens(s) == s
  {
    assert ToLower(s) == s;
    HyphenateRunsIdentity(s, IsSpace);
    forall c | c in s ensures IsWordOrHyphen(c) {
      var i :| 0 <= i < |s| && s[i] == c;
      assert IsSlugChar(s[i]);
    }
    Seqs.FilterAll(s, IsWordOrHyphen);
    HyphenateRunsIdentity(s, IsHyphen);
    assert DropRun(s, IsHyphen) == s;
    assert DropTrailingHyphens(s) == s;
  }


  /**
   * The slug keeps every ASCII letter, digit and underscore of the name,
   * lower-cased, and holds nothing else besides hyphens; in particular an
   * underscore survives because `\w` includes it.
   */
  lemma SlugChars(text: string)
    ensures forall i :: 0 <= i < |text| && IsWordChar(text[i]) ==> ToLowerChar(text[i]) in Slugify(text)
    ensures forall c :: c in Slugify(text) && c != '-' ==> exists i :: 0 <= i < |text| && IsWordChar(text[i]) && c == ToLowerChar(text[i])
  {
    if text != [] {
      var kept := StripNonWord(HyphenateSpaces(ToLower(text)));
      var collapsed := CollapseHyphens(kept);
      StrippedChars(text);
      HyphenateRunsChars(kept, IsHyphen);
      TrimHyphensShape(collapsed) by {
        CollapsedHasNoDoubleHyphen(kept);
      }
      forall c | c in Slugify(text) && c != '-'
        ensures exists i :: 0 <= i < |text| && IsWordChar(text[i]) && c == ToLowerChar(text[i])
      {
        var i :| 0 <= i < |text| && c == ToLowerChar(text[i]);
        assert IsSlugChar(c);
      }
    }
  }

  /**
   * A slug is empty exactly when the name holds no ASCII letter, ASCII digit or
   * underscore: every other character is either turned into a hyphen and then
   * trimmed, or deleted.
   */
  lemma SlugEmptyIff(text: string)
    ensures Slugify(text) == [] <==> forall i :: 0 <= i < |text| ==> !IsWordChar(text[i])
  {
    SlugChars(text);
    SlugShape(text);
    var r := Slugify(text);
    if r != [] {
      assert r[0] in r && r[0] != '-';
    }
  }

  /**
   * The shop-name example given with `slugify` in the source, "আমার বই ঘর",
   * slugifies to the empty string: `\w` is ASCII-only, so every Bengali letter is
   * deleted and the two hyphens left by the spaces are trimmed.
   */
  lemma BengaliNameSlugIsEmpty()
    ensures Slugify("আমার বই ঘর") == ""
  {
    var name := "আমার বই ঘর";
    forall i | 0 <= i < |name| ensures !IsWordChar(name[i]) {
      assert name[i] == ' ' || name[i] as int >= 0x0980;
    }
    SlugEmptyIff(name);
  }
  /** A Latin name becomes the expected slug: "My Books" gives "my-books". */
  lemma MyBooksSlug()
    ensures Slugify("My Books") == "my-books"
  {
    var slug := "my-books";
    MyBooksLowered();
    MyBooksHyphenated();
    MyBooksIsSlug();
    SlugStagesFix(slug);
  }

  lemma MyBooksLowered()
    ensures ToLower("My Books") == "my books"
  {
    var lower := ToLower("My Books");
    forall i | 0 <= i < 8 ensures lower[i] == "my books"[i] {
    }
  }

  lemma MyBooksHyphenated()
    ensures HyphenateSpaces("my books") == "my-books"
  {
    var my, books := "my", "books";
    assert forall i :: 0 <= i < |my| ==> !IsSpace(my[i]);
    assert forall i :: 0 <= i < |books| ==> !IsSpace(books[i]);
    SpaceBetweenWords(my, books);
    assert my + " " + books == "my books";
    assert my + "-" + books == "my-books";
  }

  /** One space between two words without whitespace becomes one hyphen. */
  lemma {:induction false} SpaceBetweenWords(a: string, b: string)
    requires forall i :: 0 <= i < |a| ==> !IsSpace(a[i])
    requires forall i :: 0 <= i < |b| ==> !IsSpace(b[i])
    ensures HyphenateSpaces(a + " " + b) == a + "-" + b
    decreases |a|
  {
    if a == [] {
      assert a + " " + b == [' '] + b;
      SpaceThenWord(b);
    } else {
      var t := a[1..] + " " + b;
      assert a + " " + b == [a[0]] + t;
      SpaceBetweenWords(a[1..], b);
      KeptBeforeSpaces(a[0], t);
      assert a + "-" + b == [a[0]] + (a[1..] + "-" + b);
    }
  }

  lemma SpaceThenWord(b: string)
    requires forall i :: 0 <= i < |b| ==> !IsSpace(b[i])
    ensures HyphenateSpaces([' '] + b) == "-" + b
  {
    var s := [' '] + b;
    assert s[1..] == b;
    assert DropRun(s, IsSpace) == DropRun(b, IsSpace);
    assert DropRun(b, IsSpace) == b;
    HyphenateRunsIdentity(b, IsSpace);
  }

  lemma KeptBeforeSpaces(c: char, t: string)
    requires !IsSpace(c)
    ensures HyphenateSpaces([c] + t) == [c] + HyphenateSpaces(t)
  {
    assert ([c] + t)[1..] == t;
  }

  lemma MyBooksIsSlug()
    ensures IsSlug("my-books")
  {
    var slug := "my-books";
    forall i | 0 <= i < |slug| ensures IsSlugChar(slug[i]) {
    }
    assert NoDoubleHyphen(slug);
  }

}
