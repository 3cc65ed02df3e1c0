/**
 * `getInitials` of src/components/ShopList.js: the one- or two-letter label
 * drawn in a shop's avatar.
 */
module ShopList {
  import opened Wrappers
  import opened JsString

  /** Position of the first whitespace character of `s` at or after `from`, or `|s|` when there is none. */
  function SpaceAt(s: string, from: nat): (i: nat)
    requires from <= |s|
    ensures from <= i <= |s|
    ensures i < |s| ==> IsSpace(s[i])
    ensures forall j :: from <= j < i ==> !IsSpace(s[j])
    decreases |s| - from
  {
    if from == |s| || IsSpace(s[from]) then from else SpaceAt(s, from + 1)
  }

  /** Position of the first non-whitespace character of `s` at or after `from`, or `|s|`: the end of a run. */
  function RunEnd(s: string, from: nat): (i: nat)
    requires from <= |s|
    ensures from <= i <= |s|
    ensures i < |s| ==> !IsSpace(s[i])
    ensures forall j :: from <= j < i ==> IsSpace(s[j])
    decreases |s| - from
  {
    if from == |s| || !IsSpace(s[from]) then from else RunEnd(s, from + 1)
  }

  /** The pieces of `s[from..]` between maximal runs of whitespace. */
  function SplitFrom(s: string, from: nat): (words: seq<string>)
    requires from <= |s|
    ensures |words| >= 1
    ensures |words| == 1 <==> SpaceAt(s, from) == |s|
    decreases |s| - from
  {
    var i := SpaceAt(s, from);
    if i == |s| then [s[from..]]
    else [s[from..i]] + SplitFrom(s, RunEnd(s, i))
  }

  /**
   * `split(/\s+/)`: the pieces of `s` between maximal runs of whitespace. A string
   * without whitespace, the empty string included, is one piece.
   */
  function SplitOnSpaces(s: string): (words: seq<string>)
    ensures |words| >= 1
  {
    SplitFrom(s, 0)
  }

  predicate HasSpace(s: string)
  {
    SpaceAt(s, 0) < |s|
  }

  /** The first piece of a string that does not start with whitespace is its non-empty first word. */
  lemma FirstWord(s: string)
    requires s != [] && !IsSpace(s[0])
    ensures SplitOnSpaces(s)[0] == s[..SpaceAt(s, 0)] != []
    ensures |SplitOnSpaces(s)| > 1 <==> HasSpace(s)
  {
  }

  /**
   * The last piece of `s[from..]`, when `s` does not end with whitespace and its
   * last whitespace character is at `k`, is the non-empty run after `k`.
   */
  lemma {:induction false} LastWordFrom(s: string, from: nat, k: nat)
    requires from <= k < |s| && IsSpace(s[k])
    requires forall j :: k < j < |s| ==> !IsSpace(s[j])
    requires !IsSpace(s[|s| - 1])
    ensures var words := SplitFrom(s, from); words[|words| - 1] == s[k + 1..] != []
    decreases |s| - from
  {
    var i := SpaceAt(s, from);
    var e := RunEnd(s, i);
    var rest := SplitFrom(s, e);
    assert SplitFrom(s, from)[1..] == rest;
    if e <= k {
      LastWordFrom(s, e, k);
    } else {
      assert k + 1 < |s| && !IsSpace(s[k + 1]);
      assert e == k + 1;
      assert SpaceAt(s, e) == |s|;
    }
  }

  function Min(a: int, b: int): int { if a < b then a else b }

  /** The first character of `w` as a string, or the empty string (JavaScript's `w[0] || ''`). */
  function FirstChar(w: string): string
  {
    if w == [] then [] else [w[0]]
  }

  /** The label computed from the trimmed name `t`, which does not start with whitespace. */
  function InitialsOfTrimmed(t: string): (r: string)
    requires t == [] || !IsSpace(t[0])
    ensures 1 <= |r| <= 2
  {
    var words := SplitOnSpaces(t);
    if |words| > 1 then
      FirstWord(t);
      ToUpper([words[0][0]] + FirstChar(words[|words| - 1]))
    else if words[0] != [] then
      ToUpper(words[0][..Min(2, |words[0]|)])
    else
      "?"
  }

  /**
   * `getInitials(name)`: "?" for a missing or empty name; otherwise the name is
   * trimmed and split into words: for several words the first letters of the
   * first and the last word, for one word its first two letters, upper-cased;
   * "?" when nothing is left.
   */
  function GetInitials(name: Option<string>): (r: string)
    ensures 1 <= |r| <= 2
  {
    if name.None? || name.value == [] then "?"
    else
      TrimEnds(name.value);
      InitialsOfTrimmed(Trim(name.value))
  }

  /** A missing name, or one made only of whitespace (the empty name included), shows "?". */
  lemma InitialsOfBlankName(name: Option<string>)
    requires name.None? || forall i :: 0 <= i < |name.value| ==> IsSpace(name.value[i])
    ensures GetInitials(name) == "?"
  {
    if name.Some? {
      TrimEnds(name.value);
    }
  }

  /** A one-word name shows its first two characters upper-cased, or its only one. */
  lemma InitialsOfOneWord(name: string)
    requires Trim(name) != [] && !HasSpace(Trim(name))
    ensures var t := Trim(name); GetInitials(Some(name)) == ToUpper(t[..Min(2, |t|)])
  {
  }

  /** The several-words case of `InitialsOfTrimmed`, for a trimmed `t` whose last whitespace is at `k`. */
  lemma TrimmedSeveralWords(t: string, k: nat)
    requires t != [] && !IsSpace(t[0]) && !IsSpace(t[|t| - 1])
    requires k < |t| && IsSpace(t[k]) && forall j :: k < j < |t| ==> !IsSpace(t[j])
    ensures k + 1 < |t| && InitialsOfTrimmed(t) == [ToUpperChar(t[0]), ToUpperChar(t[k + 1])]
  {
    FirstWord(t);
    LastWordFrom(t, 0, k);
    var words := SplitOnSpaces(t);
    assert |words| > 1 && words[0][0] == t[0];
    var last := words[|words| - 1];
    assert FirstChar(last) == [t[k + 1]];
    var pair := [words[0][0]] + FirstChar(last);
    assert pair == [t[0], t[k + 1]];
  }

  /**
   * A name of two or more words shows the upper-cased first character of the
   * first word and of the last word; the words between are ignored.
   */
  lemma InitialsOfSeveralWords(name: string, k: nat)
    requires var t := Trim(name); k < |t| && IsSpace(t[k]) && forall j :: k < j < |t| ==> !IsSpace(t[j])
    ensures var t := Trim(name); k + 1 < |t| && GetInitials(Some(name)) == [ToUpperChar(t[0]), ToUpperChar(t[k + 1])]
  {
    var t := Trim(name);
    TrimEnds(name);
    assert name != [];
    assert GetInitials(Some(name)) == InitialsOfTrimmed(t);
    TrimmedSeveralWords(t, k);
  }
}
