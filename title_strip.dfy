/**
 * Title stripping (main.py:186-192) and the list of strip words it uses
 * (main.py:22): every configured word is removed from the title with
 * Python's `str.replace(word, "")`, in configuration order, without any
 * trimming of the result.
 */
module TitleStrip {

  /** `w` occurs in `s` starting at index `i`. */
  predicate OccursAt(s: string, w: string, i: nat)
  {
    i + |w| <= |s| && s[i..i + |w|] == w
  }

  /** `w` occurs somewhere in `s`. */
  ghost predicate Occurs(s: string, w: string)
  {
    exists i: nat :: i <= |s| && OccursAt(s, w, i)
  }

  /**
   * `s.replace(w, "")` for a non-empty `w`: scanning left to right, every
   * non-overlapping occurrence of `w` is dropped.
   */
  function RemoveAll(s: string, w: string): (r: string)
    requires w != ""
    ensures |r| <= |s|
    decreases |s|
  {
    if |s| < |w| then s
    else if s[..|w|] == w then RemoveAll(s[|w|..], w)
    else [s[0]] + RemoveAll(s[1..], w)
  }

  /** Removing an occurring word shortens the text. */
  lemma {:induction false} RemoveAllShortens(s: string, w: string)
    requires w != "" && Occurs(s, w)
    ensures |RemoveAll(s, w)| < |s|
    decreases |s|
  {
    var i: nat :| i <= |s| && OccursAt(s, w, i);
    if s[..|w|] != w {
      assert i > 0;
      assert OccursAt(s[1..], w, i - 1) by {
        assert s[1..][i - 1..i - 1 + |w|] == s[i..i + |w|];
      }
      RemoveAllShortens(s[1..], w);
    }
  }

  /** Removing a word that does not occur changes nothing. */
  lemma {:induction false} RemoveAbsent(s: string, w: string)
    requires w != "" && !Occurs(s, w)
    ensures RemoveAll(s, w) == s
    decreases |s|
  {
    if |s| >= |w| {
      assert !OccursAt(s, w, 0);
      assert s[0..|w|] == s[..|w|];
      if Occurs(s[1..], w) {
        var i: nat :| i <= |s| - 1 && OccursAt(s[1..], w, i);
        assert s[1..][i..i + |w|] == s[i + 1..i + 1 + |w|];
        assert OccursAt(s, w, i + 1);
      }
      RemoveAbsent(s[1..], w);
      assert [s[0]] + s[1..] == s;
    }
  }

  /** `s.replace(w, "")` leaves `s` as it is exactly when `w` does not occur in it. */
  lemma RemoveAllUnchangedIff(s: string, w: string)
    requires w != ""
    ensures RemoveAll(s, w) == s <==> !Occurs(s, w)
  {
    if Occurs(s, w) {
      RemoveAllShortens(s, w);
    } else {
      RemoveAbsent(s, w);
    }
  }

  /**
   * One pass is not always enough: removing "ab" from "aabb" leaves "ab", so
   * a stripped title can still contain a strip word.
   */
  lemma RemovalCanLeaveTheWord()
    ensures RemoveAll("aabb", "ab") == "ab" && Occurs(RemoveAll("aabb", "ab"), "ab")
  {
    assert "aabb"[..2][1] != "ab"[1];
    assert "aabb"[1..] == "abb" && "abb"[..2] == "ab" && "abb"[2..] == "b";
    assert RemoveAll("abb", "ab") == "b";
    assert OccursAt("ab", "ab", 0);
  }

  /** One iteration of the strip loop: `if word:` guards the replace. */
  function StripWord(s: string, w: string): (r: string)
    ensures |r| <= |s|
  {
    if w != "" then RemoveAll(s, w) else s
  }

  /** The title after removing each word of `words`, first to last. */
  function StripAll(s: string, words: seq<string>): (r: string)
    ensures |r| <= |s|
    decreases |words|
  {
    if words == [] then s
    else StripWord(StripAll(s, words[..|words| - 1]), words[|words| - 1])
  }

  /** A title in which no strip word occurs is left as it is. */
  lemma {:induction false} StripAllKeepsCleanTitle(s: string, words: seq<string>)
    requires forall k :: 0 <= k < |words| ==> !Occurs(s, words[k])
    ensures StripAll(s, words) == s
    decreases |words|
  {
    if words != [] {
      var n := |words| - 1;
      StripAllKeepsCleanTitle(s, words[..n]);
      if words[n] != "" {
        RemoveAbsent(s, words[n]);
      }
    }
  }

  /** The `for word in STRIP_WORDS` loop of main.py:188-191. */
  method StripTitle(title: string, words: seq<string>) returns (stripped: string)
    ensures stripped == StripAll(title, words)
    ensures |stripped| <= |title|
    ensures words == [] ==> stripped == title
  {
    stripped := title;
    var i := 0;
    while i < |words|
      invariant 0 <= i <= |words|
      invariant stripped == StripAll(title, words[..i])
    {
      assert words[..i + 1][..i] == words[..i];
      if words[i] != "" {
        stripped := RemoveAll(stripped, words[i]);
      }
      i := i + 1;
    }
    assert words[..|words|] == words;
  }

  /** A word whose first character is absent from `s` does not occur in it. */
  lemma AbsentFirstChar(s: string, w: string)
    requires w != "" && w[0] !in s
    ensures !Occurs(s, w)
  {
  }

  lemma OccursAtShift(s: string, w: string, j: nat)
    requires s != []
    ensures OccursAt(s[1..], w, j) <==> OccursAt(s, w, j + 1)
  {
    if j + 1 + |w| <= |s| {
      assert s[1..][j..j + |w|] == s[j + 1..j + 1 + |w|];
    }
  }

  /** Where no occurrence starts at the head, the head character is kept. */
  lemma RemoveAllStep(s: string, w: string)
    requires w != "" && s != [] && !OccursAt(s, w, 0)
    ensures RemoveAll(s, w) == [s[0]] + RemoveAll(s[1..], w)
  {
    if |s| < |w| {
      assert [s[0]] + s[1..] == s;
    }
  }

  /** A prefix where no occurrence starts is copied through unchanged. */
  lemma {:induction false} RemoveAllKeepsPrefix(a: string, t: string, w: string)
    requires w != ""
    requires forall j: nat :: j < |a| ==> !OccursAt(a + t, w, j)
    ensures RemoveAll(a + t, w) == a + RemoveAll(t, w)
    decreases |a|
  {
    if a == [] {
      assert a + t == t && a + RemoveAll(t, w) == RemoveAll(t, w);
    } else {
      var s := a + t;
      assert s[1..] == a[1..] + t;
      forall j: nat | j < |a| - 1
        ensures !OccursAt(a[1..] + t, w, j)
      {
        OccursAtShift(s, w, j);
      }
      RemoveAllStep(s, w);
      RemoveAllKeepsPrefix(a[1..], t, w);
      assert [a[0]] + (a[1..] + RemoveAll(t, w)) == a + RemoveAll(t, w);
    }
  }

  /** No occurrence of `w` starts inside a prefix that lacks its first character. */
  lemma NoStartInPrefix(a: string, t: string, w: string)
    requires w != "" && w[0] !in a
    ensures forall j: nat :: j < |a| ==> !OccursAt(a + t, w, j)
  {
  }

  /** One occurrence between a prefix without its first character and a clean rest. */
  lemma RemoveSingleOccurrence(a: string, w: string, t: string)
    requires w != "" && w[0] !in a && !Occurs(t, w)
    ensures RemoveAll(a + (w + t), w) == a + t
  {
    NoStartInPrefix(a, w + t, w);
    RemoveAllKeepsPrefix(a, w + t, w);
    assert (w + t)[..|w|] == w && (w + t)[|w|..] == t;
    RemoveAbsent(t, w);
  }

  /** The occurrence nearest the front goes, and the removal carries on after it. */
  lemma FirstOccurrenceGoes(a: string, w: string, t: string)
    requires w != ""
    requires forall j: nat :: j < |a| ==> !OccursAt(a + (w + t), w, j)
    ensures RemoveAll(a + (w + t), w) == a + RemoveAll(t, w)
  {
    RemoveAllKeepsPrefix(a, w + t, w);
    assert (w + t)[..|w|] == w && (w + t)[|w|..] == t;
  }

  /** Both back-to-back occurrences go: `(w + w).replace(w, "")` is empty. */
  lemma RepeatedWordGoes(w: string)
    requires w != ""
    ensures RemoveAll(w + w, w) == ""
  {
    FirstOccurrenceGoes([], w, w);
    assert [] + (w + w) == w + w;
    FirstOccurrenceGoes([], w, []);
    assert [] + (w + []) == w;
  }

  /** "abab" with "ab" removed is empty. */
  lemma ExampleTwoOccurrences(s: string, w: string)
    requires s == "abab" && w == "ab"
    ensures RemoveAll(s, w) == ""
  {
    assert s == w + w;
    RepeatedWordGoes(w);
  }

  lemma ExampleSecondWord(song: string, rem: string)
    requires song == "Song " && rem == " (Remastered)"
    ensures RemoveAll(song + rem, rem) == song
  {
    var once := song + rem;
    forall j: nat | j < 5 ensures !OccursAt(once, rem, j) {
      if j + 13 <= |once| {
        assert once[1] != '(' && once[2] != '(' && once[3] != '(' && once[4] != '(' && once[5] != '(';
        assert once[j..j + 13][1] == once[j + 1];
      }
    }
    RemoveAllKeepsPrefix(song, rem, rem);
    assert rem[..13] == rem && rem[13..] == "";
    assert RemoveAll(rem, rem) == RemoveAll("", rem);
    assert song + "" == song;
  }

  /**
   * An example: removing "[HD]" and then " (Remastered)" from
   * "Song [HD] (Remastered)" leaves "Song " with its trailing space.
   */
  lemma StripExample(song: string, hd: string, rem: string)
    requires song == "Song " && hd == "[HD]" && rem == " (Remastered)"
    ensures StripAll(song + hd + rem, [hd, rem]) == song
  {
    var words := [hd, rem];
    assert words[..1] == [hd] && words[..1][..0] == [];
    AbsentFirstChar(rem, hd);
    RemoveSingleOccurrence(song, hd, rem);
    assert song + hd + rem == song + (hd + rem);
    assert StripAll(song + hd + rem, words[..1]) == song + rem;
    ExampleSecondWord(song, rem);
  }

  // ------------------------------------------------ the STRIP_WORDS setting

  /** The characters Python's `str.strip()` removes (`str.isspace()`). */
  predicate IsSpace(c: char)
  {
    || '\t' <= c <= '\r' || '\U{1c}' <= c <= ' ' || c == '\U{85}' || c == '\U{a0}'
    || c == '\U{1680}' || '\U{2000}' <= c <= '\U{200a}' || c == '\U{2028}' || c == '\U{2029}'
    || c == '\U{202f}' || c == '\U{205f}' || c == '\U{3000}'
  }

  /** `s.lstrip()`: the suffix left after dropping leading white space. */
  function TrimStart(s: string): (r: string)
    ensures |r| <= |s| && r == s[|s| - |r|..]
    ensures forall i :: 0 <= i < |s| - |r| ==> IsSpace(s[i])
    ensures r == [] || !IsSpace(r[0])
  {
    if s != [] && IsSpace(s[0]) then
      var r := TrimStart(s[1..]);
      assert forall i :: 1 <= i < |s| - |r| ==> s[i] == s[1..][i - 1];
      r
    else s
  }

  /** `s.rstrip()`: the prefix left after dropping trailing white space. */
  function TrimEnd(s: string): (r: string)
    ensures |r| <= |s| && r == s[..|r|]
    ensures forall i :: |r| <= i < |s| ==> IsSpace(s[i])
    ensures r == [] || !IsSpace(r[|r| - 1])
  {
    if s != [] && IsSpace(s[|s| - 1]) then TrimEnd(s[..|s| - 1]) else s
  }

  /**
   * `s.strip()`: the middle of `s` left after dropping white space from both
   * ends, starting at the first non-space character.
   */
  function Strip(s: string): (r: string)
    ensures r == [] || (!IsSpace(r[0]) && !IsSpace(r[|r| - 1]))
    ensures forall c :: c in r ==> c in s
  {
    var t := TrimStart(s);
    var r := TrimEnd(t);
    assert r != [] ==> r[0] == t[0];
    r
  }

  /**
   * `s.strip()` is the slice of `s` between a run of leading and a run of
   * trailing white space; with the end conditions of `Strip` this fixes it.
   */
  lemma StripIsMiddle(s: string) returns (i: nat, j: nat)
    ensures i <= j <= |s| && Strip(s) == s[i..j]
    ensures forall k :: 0 <= k < i ==> IsSpace(s[k])
    ensures forall k :: j <= k < |s| ==> IsSpace(s[k])
  {
    var t := TrimStart(s);
    var r := TrimEnd(t);
    i := |s| - |t|;
    j := i + |r|;
    assert i <= j <= |s| && r == s[i..j] && forall k :: j <= k < |s| ==> IsSpace(s[k]) by {
      SliceOfSuffix(s, t, r, i);
    }
    assert forall k :: 0 <= k < i ==> IsSpace(s[k]) by {
      LeadingSpaces(s);
    }
  }

  /** What `lstrip` drops is white space. */
  lemma LeadingSpaces(s: string)
    ensures forall k :: 0 <= k < |s| - |TrimStart(s)| ==> IsSpace(s[k])
  {
  }

  /** A prefix of a suffix is a slice, and what follows it in the suffix follows it in the whole. */
  lemma SliceOfSuffix(s: string, t: string, r: string, i: nat)
    requires i <= |s| && t == s[i..] && |r| <= |t| && r == t[..|r|]
    requires forall k :: |r| <= k < |t| ==> IsSpace(t[k])
    ensures i + |r| <= |s| && r == s[i..i + |r|]
    ensures forall k :: i + |r| <= k < |s| ==> IsSpace(s[k])
  {
    forall k | i + |r| <= k < |s|
      ensures IsSpace(s[k])
    {
      assert s[k] == t[k - i];
    }
  }

  /** `s.split(sep)`: the pieces between separators, at least one. */
  function Split(s: string, sep: char): (parts: seq<string>)
    ensures |parts| >= 1
    ensures forall k :: 0 <= k < |parts| ==> sep !in parts[k]
  {
    if s == [] then [""]
    else
      var rest := Split(s[1..], sep);
      if s[0] == sep then [""] + rest else [[s[0]] + rest[0]] + rest[1..]
  }

  /** `sep.join(parts)`. */
  function Join(parts: seq<string>, sep: char): string
    requires |parts| >= 1
  {
    if |parts| == 1 then parts[0] else parts[0] + [sep] + Join(parts[1..], sep)
  }

  /** Splitting loses nothing: joining the pieces gives the text back. */
  lemma {:induction false} SplitJoin(s: string, sep: char)
    ensures Join(Split(s, sep), sep) == s
  {
    if s != [] {
      var rest := Split(s[1..], sep);
      SplitJoin(s[1..], sep);
      if s[0] == sep {
        assert Split(s, sep)[1..] == rest;
      } else {
        var parts := Split(s, sep);
        assert parts[0] == [s[0]] + rest[0];
        if |rest| > 1 {
          assert parts[1..] == rest[1..];
        }
      }
    }
  }

  /** What main.py:22 guarantees of every strip word. */
  predicate WellFormedWord(w: string)
  {
    w != "" && !IsSpace(w[0]) && !IsSpace(w[|w| - 1]) && ',' !in w
  }

  /** The stripped, non-empty pieces, in order. */
  function NonEmptyStripped(parts: seq<string>): (words: seq<string>)
    ensures |words| <= |parts|
  {
    if parts == [] then []
    else (if Strip(parts[0]) != "" then [Strip(parts[0])] else []) + NonEmptyStripped(parts[1..])
  }

  /**
   * The STRIP_WORDS setting (main.py:22): split at commas, each piece
   * stripped of white space, empty pieces dropped. Every strip word is
   * non-empty, has no white space at either end and holds no comma.
   */
  function ParseStripWords(raw: string): (words: seq<string>)
    ensures forall k :: 0 <= k < |words| ==> WellFormedWord(words[k])
  {
    var parts := Split(raw, ',');
    NonEmptyWords(parts);
    NonEmptyStripped(parts)
  }

  /** An unset STRIP_WORDS ("") gives no strip words. */
  lemma NoStripWordsByDefault(raw: string)
    ensures raw == "" ==> ParseStripWords(raw) == []
  {
    if raw == "" {
      assert Split(raw, ',') == [raw];
      assert Strip(raw) == raw;
      assert NonEmptyStripped([raw]) == [] + NonEmptyStripped([raw][1..]);
    }
  }

  /** A non-empty stripped piece without a comma is a well-formed word. */
  lemma StrippedPieceWellFormed(p: string)
    requires ',' !in p && Strip(p) != ""
    ensures WellFormedWord(Strip(p))
  {
  }

  /** The words the first piece contributes, split off the rest. */
  lemma KeptHead(parts: seq<string>) returns (head: seq<string>)
    requires parts != [] && ',' !in parts[0]
    ensures NonEmptyStripped(parts) == head + NonEmptyStripped(parts[1..])
    ensures forall k :: 0 <= k < |head| ==> WellFormedWord(head[k])
  {
    var w := Strip(parts[0]);
    head := if w != "" then [w] else [];
    if w != "" {
      StrippedPieceWellFormed(parts[0]);
    }
  }

  lemma {:induction false} NonEmptyWords(parts: seq<string>)
    requires forall k :: 0 <= k < |parts| ==> ',' !in parts[k]
    ensures forall k :: 0 <= k < |NonEmptyStripped(parts)| ==> WellFormedWord(NonEmptyStripped(parts)[k])
  {
    if parts != [] {
      var head := KeptHead(parts);
      var tail := NonEmptyStripped(parts[1..]);
      NonEmptyWords(parts[1..]);
      assert forall k :: |head| <= k < |head + tail| ==> (head + tail)[k] == tail[k - |head|];
    }
  }

  /** Text without the separator is a single piece. */
  lemma {:induction false} SplitNoSeparator(p: string, sep: char)
    requires sep !in p
    ensures Split(p, sep) == [p]
  {
    if p != [] {
      SplitNoSeparator(p[1..], sep);
      assert [p[0]] + p[1..] == p;
    }
  }

  /** A separator-free piece followed by the separator splits off as the first piece. */
  lemma {:induction false} SplitFirstPiece(p: string, t: string, sep: char)
    requires sep !in p
    ensures Split(p + [sep] + t, sep) == [p] + Split(t, sep)
  {
    var s := p + [sep] + t;
    if p == [] {
      assert s[0] == sep && s[1..] == t;
    } else {
      assert s[1..] == p[1..] + [sep] + t;
      SplitFirstPiece(p[1..], t, sep);
      assert [p[0]] + p[1..] == p;
    }
  }

  /** Splitting a join of separator-free pieces gives the pieces back. */
  lemma {:induction false} JoinSplit(parts: seq<string>, sep: char)
    requires |parts| >= 1
    requires forall k :: 0 <= k < |parts| ==> sep !in parts[k]
    ensures Split(Join(parts, sep), sep) == parts
    decreases |parts|
  {
    if |parts| == 1 {
      SplitNoSeparator(parts[0], sep);
    } else {
      JoinSplit(parts[1..], sep);
      SplitFirstPiece(parts[0], Join(parts[1..], sep), sep);
      assert [parts[0]] + parts[1..] == parts;
    }
  }

  /** A well-formed word has nothing to strip. */
  lemma StripWellFormed(w: string)
    requires WellFormedWord(w)
    ensures Strip(w) == w
  {
    assert TrimStart(w) == w;
    assert TrimEnd(w) == w;
  }

  /** A list of well-formed words passes the strip-and-filter step unchanged. */
  lemma {:induction false} KeepsWellFormed(words: seq<string>)
    requires forall k :: 0 <= k < |words| ==> WellFormedWord(words[k])
    ensures NonEmptyStripped(words) == words
  {
    if words != [] {
      StripWellFormed(words[0]);
      KeepsWellFormed(words[1..]);
      assert [words[0]] + words[1..] == words;
    }
  }

  /**
   * Every list of well-formed words is what the setting formed by joining
   * them with commas parses to.
   */
  lemma ParseJoin(words: seq<string>)
    requires |words| >= 1
    requires forall k :: 0 <= k < |words| ==> WellFormedWord(words[k])
    ensures ParseStripWords(Join(words, ',')) == words
  {
    JoinSplit(words, ',');
    KeepsWellFormed(words);
  }
}
