/** The full-name check the conversation applies before a name may be
    confirmed (get_fio): the text is stripped of surrounding whitespace and
    accepted when it has at least 5 characters and at least two
    whitespace-separated words. Whitespace is Python's str.isspace. */
module FullName {
  import opened Strings

  /** The characters Python's str.strip() and str.split() treat as
      whitespace (those for which str.isspace() holds). */
  const Whitespace: string :=
    "\t\n\U{0b}\U{0c}\r\U{1c}\U{1d}\U{1e}\U{1f} \U{85}\U{a0}\U{1680}"
    + "\U{2000}\U{2001}\U{2002}\U{2003}\U{2004}\U{2005}\U{2006}\U{2007}\U{2008}\U{2009}\U{200a}"
    + "\U{2028}\U{2029}\U{202f}\U{205f}\U{3000}"

  predicate IsSpace(c: char)
  {
    Occurs(c, Whitespace)
  }

  predicate Occurs(c: char, cs: string)
  {
    |cs| > 0 && (cs[0] == c || Occurs(c, cs[1..]))
  }

  /* ----------------------------------------------------------------- strip */

  function StripLeft(s: string): (r: string)
    ensures |r| <= |s| && r == s[|s| - |r|..]
    ensures forall k :: 0 <= k < |s| - |r| ==> IsSpace(s[k])
    ensures |r| == 0 || !IsSpace(r[0])
  {
    if |s| > 0 && IsSpace(s[0]) then StripLeft(s[1..]) else s
  }

  function StripRight(s: string): (r: string)
    ensures |r| <= |s| && r == s[..|r|]
    ensures forall k :: |r| <= k < |s| ==> IsSpace(s[k])
    ensures |r| == 0 || !IsSpace(r[|r| - 1])
  {
    if |s| > 0 && IsSpace(s[|s| - 1]) then StripRight(s[..|s| - 1]) else s
  }

  /** s[..i] and s[j..] are all whitespace. */
  predicate SpaceOutside(s: string, i: int, j: int)
  {
    0 <= i <= j <= |s|
    && (forall k :: 0 <= k < i ==> IsSpace(s[k]))
    && (forall k :: j <= k < |s| ==> IsSpace(s[k]))
  }

  /** str.strip(): the text between the first and the last non-whitespace
      character; empty when there is none. */
  function Strip(s: string): (r: string)
    ensures exists i, j :: SpaceOutside(s, i, j) && r == s[i..j]
    ensures |r| == 0 || (!IsSpace(r[0]) && !IsSpace(r[|r| - 1]))
    ensures |r| == 0 <==> forall k :: 0 <= k < |s| ==> IsSpace(s[k])
  {
    var l := StripLeft(s);
    var r := StripRight(l);
    SliceOfSlice(s, |s| - |l|, l, r);
    r
  }

  /** r, a prefix of the suffix l = s[i..], is s[i..i + |r|]; whitespace
      before i in s and after r in l is whitespace outside that slice. */
  lemma SliceOfSlice(s: string, i: int, l: string, r: string)
    requires 0 <= i <= |s| && l == s[i..] && |r| <= |l| && r == l[..|r|]
    requires forall k :: 0 <= k < i ==> IsSpace(s[k])
    requires forall k :: |r| <= k < |l| ==> IsSpace(l[k])
    ensures SpaceOutside(s, i, i + |r|) && r == s[i..i + |r|]
  {
    forall k | i + |r| <= k < |s| ensures IsSpace(s[k]) {
      assert s[k] == l[k - i];
    }
  }

  /** Stripping twice is stripping once. */
  lemma StripIdempotent(s: string)
    ensures Strip(Strip(s)) == Strip(s)
  {
    var r := Strip(s);
    assert StripLeft(r) == r;
    assert StripRight(r) == r;
  }

  /* ----------------------------------------------------------------- split */

  /** The length of the run of non-whitespace characters that s starts with. */
  function WordLength(s: string): (k: nat)
    ensures k <= |s|
    ensures forall i :: 0 <= i < k ==> !IsSpace(s[i])
    ensures k < |s| ==> IsSpace(s[k])
  {
    if |s| == 0 || IsSpace(s[0]) then 0 else 1 + WordLength(s[1..])
  }

  /** str.split() with no separator: the maximal runs of non-whitespace
      characters, in order. */
  function Split(s: string): (words: seq<string>)
    decreases |s|
    ensures forall i :: 0 <= i < |words| ==> |words[i]| > 0
    ensures forall i, k :: 0 <= i < |words| && 0 <= k < |words[i]| ==> !IsSpace(words[i][k])
  {
    if |s| == 0 then []
    else if IsSpace(s[0]) then Split(s[1..])
    else
      var k := WordLength(s);
      [s[..k]] + Split(s[k..])
  }

  /** The non-whitespace characters of s, in order. */
  function Visible(s: string): string
  {
    if |s| == 0 then [] else (if IsSpace(s[0]) then [] else [s[0]]) + Visible(s[1..])
  }

  lemma {:induction false} VisibleOfWord(s: string, k: nat)
    requires k <= |s| && forall i :: 0 <= i < k ==> !IsSpace(s[i])
    ensures Visible(s) == s[..k] + Visible(s[k..])
  {
    if k > 0 {
      VisibleOfWord(s[1..], k - 1);
      assert s[1..][k - 1..] == s[k..];
      assert s[..k] == [s[0]] + s[1..][..k - 1];
    }
  }

  /** Splitting loses only whitespace: the words put back together are
      exactly the non-whitespace characters of the text. */
  lemma {:induction false} SplitKeepsVisible(s: string)
    decreases |s|
    ensures Concat(Split(s)) == Visible(s)
  {
    if |s| > 0 {
      if IsSpace(s[0]) {
        SplitKeepsVisible(s[1..]);
      } else {
        var k := WordLength(s);
        var words := Split(s);
        assert words == [s[..k]] + Split(s[k..]);
        assert words[1..] == Split(s[k..]);
        SplitKeepsVisible(s[k..]);
        VisibleOfWord(s, k);
      }
    }
  }

  /* ----------------------------------------------------------- word counts */

  /** s[k] is a non-whitespace character. */
  predicate WordAt(s: string, k: int)
  {
    0 <= k < |s| && !IsSpace(s[k])
  }

  /** s has some non-whitespace character. */
  ghost predicate HasWord(s: string)
  {
    exists k :: WordAt(s, k)
  }

  /** s[j] is whitespace with non-whitespace s[i] before it and s[k] after it. */
  predicate TwoWordsAt(s: string, i: int, j: int, k: int)
  {
    0 <= i < j < k < |s| && !IsSpace(s[i]) && IsSpace(s[j]) && !IsSpace(s[k])
  }

  /** s has two non-whitespace characters with whitespace between them. */
  ghost predicate HasTwoWords(s: string)
  {
    exists i, j, k :: TwoWordsAt(s, i, j, k)
  }

  lemma {:induction false} SplitNonEmpty(s: string)
    decreases |s|
    ensures |Split(s)| >= 1 <==> HasWord(s)
  {
    if |s| > 0 && IsSpace(s[0]) {
      var t := s[1..];
      SplitNonEmpty(t);
      if HasWord(s) {
        var k :| WordAt(s, k);
        assert WordAt(t, k - 1);
      }
      if HasWord(t) {
        var k :| WordAt(t, k);
        assert WordAt(s, k + 1);
      }
    } else if |s| > 0 {
      assert WordAt(s, 0);
    }
  }

  lemma HasTwoWordsAfterSpace(s: string)
    requires |s| > 0 && IsSpace(s[0])
    ensures HasTwoWords(s) <==> HasTwoWords(s[1..])
  {
    var t := s[1..];
    if HasTwoWords(s) {
      var i, j, k :| TwoWordsAt(s, i, j, k);
      assert TwoWordsAt(t, i - 1, j - 1, k - 1);
    }
    if HasTwoWords(t) {
      var i, j, k :| TwoWordsAt(t, i, j, k);
      assert TwoWordsAt(s, i + 1, j + 1, k + 1);
    }
  }

  lemma HasTwoWordsAfterWord(s: string)
    requires |s| > 0 && !IsSpace(s[0])
    ensures HasTwoWords(s) <==> HasWord(s[WordLength(s)..])
  {
    var w := WordLength(s);
    var t := s[w..];
    if HasTwoWords(s) {
      var i, j, k :| TwoWordsAt(s, i, j, k);
      assert j >= w;
      assert WordAt(t, k - w);
    }
    if HasWord(t) {
      var k :| WordAt(t, k);
      assert k > 0 by { assert t[0] == s[w]; }
      assert TwoWordsAt(s, 0, w, w + k);
    }
  }

  /** str.split() yields at least two words exactly when the text has two
      non-whitespace characters separated by whitespace. */
  lemma {:induction false} SplitTwoWords(s: string)
    decreases |s|
    ensures |Split(s)| >= 2 <==> HasTwoWords(s)
  {
    if |s| == 0 {
      assert forall i, j, k :: !TwoWordsAt(s, i, j, k);
    } else if IsSpace(s[0]) {
      SplitTwoWords(s[1..]);
      HasTwoWordsAfterSpace(s);
    } else {
      var w := WordLength(s);
      assert |Split(s)| == 1 + |Split(s[w..])|;
      SplitNonEmpty(s[w..]);
      HasTwoWordsAfterWord(s);
    }
  }

  /** Whitespace outside s[a..b] does not change whether there are two words. */
  lemma TwoWordsInside(s: string, a: int, b: int)
    requires 0 <= a <= b <= |s|
    requires forall k :: 0 <= k < a ==> IsSpace(s[k])
    requires forall k :: b <= k < |s| ==> IsSpace(s[k])
    ensures HasTwoWords(s[a..b]) <==> HasTwoWords(s)
  {
    var r := s[a..b];
    if HasTwoWords(r) {
      var i, j, k :| TwoWordsAt(r, i, j, k);
      assert TwoWordsAt(s, a + i, a + j, a + k);
    }
    if HasTwoWords(s) {
      var i, j, k :| TwoWordsAt(s, i, j, k);
      assert a <= i && k < b;
      assert TwoWordsAt(r, i - a, j - a, k - a);
    }
  }

  /** Surrounding whitespace does not change whether there are two words. */
  lemma StripKeepsTwoWords(s: string)
    ensures HasTwoWords(Strip(s)) <==> HasTwoWords(s)
  {
    var r := Strip(s);
    var a, b :| SpaceOutside(s, a, b) && r == s[a..b];
    TwoWordsInside(s, a, b);
  }

  /* ------------------------------------------------------------- the check */

  /** The outcome of get_fio: the stripped name goes on to confirmation, or
      the user is asked again. */
  datatype FioCheck = Accepted(fio: string) | Rejected

  /** get_fio's validation: strip, then reject when shorter than 5 characters
      or fewer than two words. */
  function CheckFio(text: string): (r: FioCheck)
    ensures r.Accepted? ==> r.fio == Strip(text) && |r.fio| >= 5
    ensures r.Accepted? ==> !IsSpace(r.fio[0]) && !IsSpace(r.fio[|r.fio| - 1])
  {
    var fio := Strip(text);
    if |fio| < 5 || |Split(fio)| < 2 then Rejected else Accepted(fio)
  }

  /** A name is accepted exactly when its stripped form has at least 5
      characters and the text has two non-whitespace characters separated by
      whitespace. */
  lemma CheckFioAccepts(text: string)
    ensures CheckFio(text).Accepted? <==> |Strip(text)| >= 5 && HasTwoWords(text)
  {
    var f := Strip(text);
    SplitTwoWords(f);
    StripKeepsTwoWords(text);
    assert CheckFio(text).Accepted? <==> |f| >= 5 && |Split(f)| >= 2;
  }

  /** An accepted name passes the check again: what get_fio keeps for
      confirmation is itself a valid full name. */
  lemma AcceptedNameIsValid(text: string)
    requires CheckFio(text).Accepted?
    ensures CheckFio(CheckFio(text).fio) == CheckFio(text)
  {
    StripIdempotent(text);
  }
}
