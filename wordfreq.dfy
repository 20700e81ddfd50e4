/**
 * Word frequencies of a line of text: trim it, lowercase it, keep only the
 * letters 'a'..'z' and the space, split on single spaces and count every
 * non-empty field.
 */
module WordFreq {

  /** The ASCII white-space characters that trimming removes. */
  predicate IsSpace(c: char)
  {
    c == ' ' || c == '\t' || c == '\n' || c == '\r' || c == '\U{000B}' || c == '\U{000C}'
  }

  /** `s` without its leading white space: only spaces are dropped, and what is left starts with a non-space. */
  function TrimLeft(s: string): (r: string)
    ensures |r| <= |s| && r == s[|s| - |r|..]
    ensures forall i :: 0 <= i < |s| - |r| ==> IsSpace(s[i])
    ensures r == [] || !IsSpace(r[0])
    decreases |s|
  {
    if s != [] && IsSpace(s[0]) then
      var r := TrimLeft(s[1..]);
      assert s[1..][|s| - 1 - |r|..] == s[|s| - |r|..];
      r
    else s
  }

  /** `s` without its trailing white space: only spaces are dropped, and what is left ends with a non-space. */
  function TrimRight(s: string): (r: string)
    ensures |r| <= |s| && r == s[..|r|]
    ensures forall i :: |r| <= i < |s| ==> IsSpace(s[i])
    ensures r == [] || !IsSpace(r[|r| - 1])
    decreases |s|
  {
    if s != [] && IsSpace(s[|s| - 1]) then TrimRight(s[..|s| - 1]) else s
  }

  /**
   * `s` without leading and trailing white space: the result neither starts
   * nor ends with white space, a text of white space alone trims to "", and
   * a text that is already trimmed is returned as it is.
   */
  function TrimSpace(s: string): (r: string)
    ensures |r| <= |s|
    ensures r == [] || (!IsSpace(r[0]) && !IsSpace(r[|r| - 1]))
    ensures (forall i :: 0 <= i < |s| ==> IsSpace(s[i])) ==> r == []
    ensures (s != [] && !IsSpace(s[0]) && !IsSpace(s[|s| - 1])) ==> r == s
  {
    var t := TrimLeft(s);
    assert t != [] ==> t[0] == s[|s| - |t|];
    TrimRight(t)
  }

  /** ASCII lower-casing of one character. */
  function ToLowerChar(c: char): char
  {
    if 'A' <= c <= 'Z' then (c as int - 'A' as int + 'a' as int) as char else c
  }

  /** ASCII lower-casing of a string, character by character. */
  function ToLower(s: string): (r: string)
    ensures |r| == |s| && forall i :: 0 <= i < |s| ==> r[i] == ToLowerChar(s[i])
    ensures forall i :: 0 <= i < |r| ==> !('A' <= r[i] <= 'Z')
    ensures forall i :: 0 <= i < |s| && !('A' <= s[i] <= 'Z') ==> r[i] == s[i]
  {
    seq(|s|, i requires 0 <= i < |s| => ToLowerChar(s[i]))
  }

  /** The characters the cleaning step keeps. */
  predicate Kept(c: char)
  {
    ('a' <= c && c <= 'z') || c == ' '
  }

  /**
   * `s` with every character that is not kept dropped, the others in order:
   * never longer than `s`, no kept character is lost, and a text made of
   * kept characters only is returned as it is.
   */
  function Clean(s: string): (r: string)
    ensures |r| <= |s|
    ensures forall c :: c in s && Kept(c) ==> c in r
    ensures (forall i :: 0 <= i < |s| ==> Kept(s[i])) ==> r == s
  {
    if s == [] then []
    else Clean(s[..|s| - 1]) + (if Kept(s[|s| - 1]) then [s[|s| - 1]] else [])
  }

  /** The index of the first space in `s`. */
  function FirstSpace(s: string): (i: nat)
    requires ' ' in s
    ensures i < |s| && s[i] == ' ' && ' ' !in s[..i]
  {
    if s[0] == ' ' then 0
    else
      assert ' ' in s[1..] by {
        var k :| 0 <= k < |s| && s[k] == ' ';
        assert s[1..][k - 1] == ' ';
      }
      var j := FirstSpace(s[1..]);
      assert s[..j + 1] == [s[0]] + s[1..][..j];
      j + 1
  }

  /**
   * The fields of `s` separated by single spaces, as splitting on " " gives
   * them: n spaces give n + 1 fields, and empty fields are kept.
   */
  function Split(s: string): (fields: seq<string>)
    ensures |fields| >= 1
    decreases |s|
  {
    if ' ' in s then
      var i := FirstSpace(s);
      [s[..i]] + Split(s[i + 1..])
    else
      [s]
  }

  /** `s` has one field more than it has spaces. */
  lemma {:induction false} SplitFieldCount(s: string)
    ensures |Split(s)| == multiset(s)[' '] + 1
    decreases |s|
  {
    if ' ' in s {
      var i := FirstSpace(s);
      assert s == s[..i] + [' '] + s[i + 1..];
      assert multiset(s[..i])[' '] == 0;
      SplitFieldCount(s[i + 1..]);
    } else {
      assert multiset(s)[' '] == 0;
    }
  }

  /** The fields joined back together with one space between neighbours. */
  function Join(fields: seq<string>): string
  {
    if |fields| <= 1 then (if fields == [] then "" else fields[0])
    else fields[0] + " " + Join(fields[1..])
  }

  /** Joining the fields of `s` with single spaces gives `s` back. */
  lemma {:induction false} JoinSplit(s: string)
    ensures Join(Split(s)) == s
    decreases |s|
  {
    if ' ' in s {
      var i := FirstSpace(s);
      var rest := s[i + 1..];
      assert Split(s)[1..] == Split(rest);
      JoinSplit(rest);
      assert s == s[..i] + " " + rest;
    }
  }

  /** The non-empty entries of `ws`, in order. */
  function NonEmpty(ws: seq<string>): seq<string>
  {
    if ws == [] then []
    else NonEmpty(ws[..|ws| - 1]) + (if ws[|ws| - 1] != "" then [ws[|ws| - 1]] else [])
  }

  /** How many entries of `ws` equal `w`. */
  function Count(ws: seq<string>, w: string): nat
  {
    if ws == [] then 0
    else Count(ws[..|ws| - 1], w) + (if ws[|ws| - 1] == w then 1 else 0)
  }

  /** The words the frequency table counts: the non-empty fields of the cleaned text. */
  function Words(text: string): seq<string>
  {
    NonEmpty(Split(Clean(ToLower(TrimSpace(text)))))
  }

  /** The cleaned text holds only 'a'..'z' and spaces. */
  lemma {:induction false} CleanKeepsOnlyKept(s: string)
    ensures forall i :: 0 <= i < |Clean(s)| ==> Kept(Clean(s)[i])
  {
    if s != [] {
      CleanKeepsOnlyKept(s[..|s| - 1]);
    }
  }

  /** Cleaning works character by character, so it distributes over concatenation. */
  lemma {:induction false} CleanConcat(a: string, b: string)
    ensures Clean(a + b) == Clean(a) + Clean(b)
    decreases |b|
  {
    if b == [] {
      assert a + b == a;
    } else {
      CleanConcat(a, b[..|b| - 1]);
      assert (a + b)[..|a + b| - 1] == a + b[..|b| - 1];
    }
  }

  /** A dropped character leaves no separator: the text on both sides of it is joined up. */
  lemma DroppedLeavesNoSeparator(a: string, c: char, b: string)
    requires !Kept(c)
    ensures Clean(a + [c] + b) == Clean(a) + Clean(b)
  {
    assert Clean([c]) == [] by { assert [c][..0] == []; }
    CleanConcat(a, [c]);
    CleanConcat(a + [c], b);
    assert Clean(a + [c]) == Clean(a);
  }

  /** Cleaning drops a character without putting a separator in its place: "don't" becomes "dont". */
  lemma ApostropheIsDropped()
    ensures Clean("don't") == "dont"
  {
    assert "d"[..0] == "";
    assert "do"[..1] == "d";
    assert "don"[..2] == "do";
    assert "don'"[..3] == "don";
    assert "don't"[..4] == "don'";
  }

  /** `FirstSpace` is the only index that is a space with no space before it. */
  lemma FirstSpaceIsFirst(s: string, i: nat)
    requires i < |s| && s[i] == ' ' && ' ' !in s[..i]
    ensures FirstSpace(s) == i
  {
  }

  /** No field contains a space, and every character of a field comes from `s`. */
  lemma {:induction false} SplitFields(s: string)
    ensures forall i, j :: 0 <= i < |Split(s)| && 0 <= j < |Split(s)[i]| ==>
      Split(s)[i][j] != ' ' && Split(s)[i][j] in s
    decreases |s|
  {
    if ' ' in s {
      var k := FirstSpace(s);
      var rest := s[k + 1..];
      SplitFields(rest);
      forall i, j | 0 <= i < |Split(s)| && 0 <= j < |Split(s)[i]|
        ensures Split(s)[i][j] != ' ' && Split(s)[i][j] in s
      {
        if i == 0 {
          assert Split(s)[0] == s[..k];
          assert s[..k][j] == s[j];
        } else {
          assert Split(s)[i] == Split(rest)[i - 1];
          var c := Split(rest)[i - 1][j];
          var m :| 0 <= m < |rest| && rest[m] == c;
          assert s[k + 1 + m] == c;
        }
      }
    }
  }

  /** Splitting cuts at the first space: the field before it, then the fields after it. */
  lemma SplitAtFirstSpace(s: string, i: nat)
    requires i < |s| && s[i] == ' ' && ' ' !in s[..i]
    ensures Split(s) == [s[..i]] + Split(s[i + 1..])
  {
    FirstSpaceIsFirst(s, i);
  }

  /** No entry of `fields` contains a space. */
  predicate SpaceFree(fields: seq<string>)
  {
    forall i :: 0 <= i < |fields| ==> ' ' !in fields[i]
  }

  /** Two space-free lists of fields stay space-free when put together. */
  lemma SpaceFreeConcat(x: seq<string>, y: seq<string>)
    requires SpaceFree(x) && SpaceFree(y)
    ensures SpaceFree(x + y)
  {
    forall i | 0 <= i < |x + y|
      ensures ' ' !in (x + y)[i]
    {
      if i < |x| { assert (x + y)[i] == x[i]; } else { assert (x + y)[i] == y[i - |x|]; }
    }
  }

  /** The fields of a text never contain a space. */
  lemma SplitIsSpaceFree(s: string)
    ensures SpaceFree(Split(s))
  {
    SplitFields(s);
  }

  /** Joining two non-empty lists of fields puts one space between their joins. */
  lemma {:induction false} JoinConcat(x: seq<string>, y: seq<string>)
    requires |x| >= 1 && |y| >= 1
    ensures Join(x + y) == Join(x) + " " + Join(y)
  {
    if |x| > 1 {
      assert (x + y)[1..] == x[1..] + y;
      JoinConcat(x[1..], y);
    } else {
      assert (x + y)[1..] == y;
    }
  }

  /** Space-free fields joined with single spaces split back into exactly those fields. */
  lemma {:induction false} SplitJoin(fields: seq<string>)
    requires |fields| >= 1 && SpaceFree(fields)
    ensures Split(Join(fields)) == fields
  {
    var f := fields[0];
    if |fields| == 1 {
      assert Join(fields) == f;
    } else {
      var rest := fields[1..];
      var s := Join(fields);
      assert s == f + " " + Join(rest);
      assert s[..|f|] == f;
      assert s[|f| + 1..] == Join(rest);
      SplitAtFirstSpace(s, |f|);
      SplitJoin(rest);
      assert fields == [f] + rest;
    }
  }

  /** Splitting at a space splits the text into the fields of each side. */
  lemma SplitConcat(a: string, b: string)
    ensures Split(a + " " + b) == Split(a) + Split(b)
  {
    var x, y := Split(a), Split(b);
    JoinSplit(a);
    JoinSplit(b);
    JoinConcat(x, y);
    SplitIsSpaceFree(a);
    SplitIsSpaceFree(b);
    SpaceFreeConcat(x, y);
    SplitJoin(x + y);
  }

  /** The non-empty entries of a concatenation are those of each part. */
  lemma {:induction false} NonEmptyConcat(x: seq<string>, y: seq<string>)
    ensures NonEmpty(x + y) == NonEmpty(x) + NonEmpty(y)
  {
    if y == [] {
      assert x + y == x;
    } else {
      var init := y[..|y| - 1];
      NonEmptyConcat(x, init);
      assert (x + y)[..|x + y| - 1] == x + init;
    }
  }

  /** Every entry of `NonEmpty(ws)` is non-empty and comes from `ws`. */
  lemma {:induction false} NonEmptyEntries(ws: seq<string>)
    ensures forall i :: 0 <= i < |NonEmpty(ws)| ==> NonEmpty(ws)[i] != "" && NonEmpty(ws)[i] in ws
  {
    if ws != [] {
      var init := ws[..|ws| - 1];
      NonEmptyEntries(init);
      forall i | 0 <= i < |NonEmpty(ws)|
        ensures NonEmpty(ws)[i] != "" && NonEmpty(ws)[i] in ws
      {
        if i < |NonEmpty(init)| {
          assert NonEmpty(ws)[i] == NonEmpty(init)[i];
          var k :| 0 <= k < |init| && init[k] == NonEmpty(init)[i];
          assert ws[k] == init[k];
        } else {
          assert NonEmpty(ws)[i] == ws[|ws| - 1];
        }
      }
    }
  }

  /** Every counted word is non-empty and made of the letters 'a'..'z' only. */
  lemma WordsAreLowercaseLetters(text: string)
    ensures forall i :: 0 <= i < |Words(text)| ==>
      Words(text)[i] != "" && forall j :: 0 <= j < |Words(text)[i]| ==> 'a' <= Words(text)[i][j] <= 'z'
  {
    var cleaned := Clean(ToLower(TrimSpace(text)));
    var fields := Split(cleaned);
    var words := NonEmpty(fields);
    assert words == Words(text);
    CleanKeepsOnlyKept(ToLower(TrimSpace(text)));
    SplitFields(cleaned);
    NonEmptyEntries(fields);
    forall i, j | 0 <= i < |words| && 0 <= j < |words[i]|
      ensures 'a' <= words[i][j] <= 'z'
    {
      var k :| 0 <= k < |fields| && fields[k] == words[i];
      var c := fields[k][j];
      assert c != ' ' && c in cleaned;
      var m :| 0 <= m < |cleaned| && cleaned[m] == c;
      assert Kept(cleaned[m]);
    }
  }

  /** `n` spaces. */
  function Spaces(n: nat): string
  {
    seq(n, _ => ' ')
  }

  /** Leading spaces add no word. */
  lemma {:induction false} LeadingSpacesAddNoWords(n: nat, s: string)
    ensures NonEmpty(Split(Spaces(n) + s)) == NonEmpty(Split(s))
  {
    if n > 0 {
      assert Spaces(n) + s == "" + " " + (Spaces(n - 1) + s);
      SplitConcat("", Spaces(n - 1) + s);
      NonEmptyConcat([""], Split(Spaces(n - 1) + s));
      assert NonEmpty([""]) == [];
      LeadingSpacesAddNoWords(n - 1, s);
    } else {
      assert Spaces(n) + s == s;
    }
  }

  /** Trailing spaces add no word. */
  lemma TrailingSpacesAddNoWords(s: string, n: nat)
    ensures NonEmpty(Split(s + Spaces(n))) == NonEmpty(Split(s))
  {
    if n > 0 {
      assert s + Spaces(n) == s + " " + Spaces(n - 1);
      SplitConcat(s, Spaces(n - 1));
      NonEmptyConcat(Split(s), Split(Spaces(n - 1)));
      LeadingSpacesAddNoWords(n - 1, "");
      assert Spaces(n - 1) + "" == Spaces(n - 1);
      assert NonEmpty(Split("")) == [];
      assert NonEmpty(Split(s)) + [] == NonEmpty(Split(s));
    } else {
      assert s + Spaces(n) == s;
    }
  }

  /** A run of spaces between two words separates them like a single space. */
  lemma SpaceRunActsAsOneSpace(a: string, n: nat, b: string)
    requires n >= 1
    ensures NonEmpty(Split(a + Spaces(n) + b)) == NonEmpty(Split(a + " " + b))
  {
    assert a + Spaces(n) + b == a + " " + (Spaces(n - 1) + b);
    SplitConcat(a, Spaces(n - 1) + b);
    NonEmptyConcat(Split(a), Split(Spaces(n - 1) + b));
    LeadingSpacesAddNoWords(n - 1, b);
    SplitConcat(a, b);
    NonEmptyConcat(Split(a), Split(b));
  }

  /** Lower-casing twice is lower-casing once. */
  lemma ToLowerIdempotent(s: string)
    ensures ToLower(ToLower(s)) == ToLower(s)
  {
  }

  /** Trimming and lower-casing commute, since no white space is an upper-case letter. */
  lemma {:induction false} TrimLeftCommutesWithLower(s: string)
    ensures TrimLeft(ToLower(s)) == ToLower(TrimLeft(s))
    decreases |s|
  {
    var l := ToLower(s);
    if s != [] && IsSpace(s[0]) {
      assert IsSpace(l[0]);
      assert l[1..] == ToLower(s[1..]);
      TrimLeftCommutesWithLower(s[1..]);
    } else {
      assert l == [] || !IsSpace(l[0]);
      assert TrimLeft(s) == s;
      assert TrimLeft(l) == l;
    }
  }

  /** Trimming trailing white space commutes with lower-casing, for the same reason. */
  lemma {:induction false} TrimRightCommutesWithLower(s: string)
    ensures TrimRight(ToLower(s)) == ToLower(TrimRight(s))
    decreases |s|
  {
    if s != [] && IsSpace(s[|s| - 1]) {
      assert ToLower(s)[..|s| - 1] == ToLower(s[..|s| - 1]);
      TrimRightCommutesWithLower(s[..|s| - 1]);
    }
  }

  /** The counted words, and so the table, are the same for a text and its lower-cased form. */
  lemma CaseInsensitive(text: string)
    ensures Words(ToLower(text)) == Words(text)
  {
    TrimLeftCommutesWithLower(text);
    TrimRightCommutesWithLower(TrimLeft(text));
    ToLowerIdempotent(TrimSpace(text));
  }

  /** The sum of all the counts in a frequency table. */
  ghost function TotalCount(m: map<string, int>): int
    decreases m.Keys
  {
    if m == map[] then 0
    else
      var k :| k in m;
      m[k] + TotalCount(m - {k})
  }

  /** The sum of the counts may be taken starting from any key. */
  lemma {:induction false} TotalCountRemove(m: map<string, int>, k: string)
    requires k in m
    ensures TotalCount(m) == m[k] + TotalCount(m - {k})
    decreases m.Keys
  {
    var j :| j in m && TotalCount(m) == m[j] + TotalCount(m - {j});
    if j != k {
      TotalCountRemove(m - {j}, k);
      TotalCountRemove(m - {k}, j);
      assert m - {j} - {k} == m - {k} - {j};
    }
  }

  /** The table after one more occurrence of `w`; a missing word starts at zero. */
  function Increment(m: map<string, int>, w: string): map<string, int>
  {
    m[w := (if w in m then m[w] else 0) + 1]
  }

  /** Counting one more occurrence of `w` raises the total by one. */
  lemma TotalCountIncrement(m: map<string, int>, w: string)
    ensures TotalCount(Increment(m, w)) == TotalCount(m) + 1
  {
    var m' := Increment(m, w);
    TotalCountRemove(m', w);
    if w in m {
      TotalCountRemove(m, w);
      assert m' - {w} == m - {w};
    } else {
      assert m' - {w} == m;
    }
  }

  /** Drops every character other than 'a'..'z' and the space, keeping the others in order. */
  method RemovePunctuation(text: string) returns (cleaned: string)
    ensures cleaned == Clean(text)
  {
    cleaned := "";
    for i := 0 to |text|
      invariant cleaned == Clean(text[..i])
    {
      assert text[..i + 1][..i] == text[..i];
      var c := text[i];
      if ('a' <= c && c <= 'z') || c == ' ' {
        cleaned := cleaned + [c];
      }
    }
    assert text[..|text|] == text;
  }

  /** One more entry at the end is kept exactly when it is non-empty. */
  lemma NonEmptyStep(ws: seq<string>, i: nat)
    requires i < |ws|
    ensures NonEmpty(ws[..i + 1]) == NonEmpty(ws[..i]) + (if ws[i] != "" then [ws[i]] else [])
  {
    assert ws[..i + 1][..i] == ws[..i];
  }

  /** One more entry at the end is counted exactly when it is the word asked for. */
  lemma CountSnoc(ws: seq<string>, x: string, w: string)
    ensures Count(ws + [x], w) == Count(ws, w) + (if x == w then 1 else 0)
  {
    assert (ws + [x])[..|ws|] == ws;
  }

  /** A word occurs in `ws` exactly when its count there is positive. */
  lemma {:induction false} CountPositive(ws: seq<string>, w: string)
    ensures w in ws <==> Count(ws, w) > 0
  {
    if ws != [] {
      var init := ws[..|ws| - 1];
      CountPositive(init, w);
      assert ws == init + [ws[|ws| - 1]];
    }
  }

  /** `freq` holds exactly the words of `ws`, each with the number of times it occurs. */
  ghost predicate IsTally(freq: map<string, int>, ws: seq<string>)
  {
    && (forall w :: w in freq <==> w in ws)
    && (forall w :: w in freq ==> freq[w] == Count(ws, w))
  }

  /** Every count in a tally is at least one. */
  lemma TallyCountsArePositive(freq: map<string, int>, ws: seq<string>)
    requires IsTally(freq, ws)
    ensures forall w :: w in freq ==> freq[w] >= 1
  {
    forall w | w in freq
      ensures freq[w] >= 1
    {
      CountPositive(ws, w);
    }
  }

  /** Incrementing the entry of `word` tallies one more occurrence of it. */
  lemma TallyStep(freq: map<string, int>, ws: seq<string>, word: string)
    requires IsTally(freq, ws)
    ensures IsTally(Increment(freq, word), ws + [word])
  {
    CountPositive(ws, word);
    var freq' := Increment(freq, word);
    forall w | w in freq'
      ensures freq'[w] == Count(ws + [word], w)
    {
      CountSnoc(ws, word, w);
    }
  }

  /** Counts every non-empty entry of `words`. */
  method CountWords(words: seq<string>) returns (freq: map<string, int>)
    ensures IsTally(freq, NonEmpty(words))
    ensures forall w :: w in freq ==> freq[w] >= 1
    ensures TotalCount(freq) == |NonEmpty(words)|
  {
    freq := map[];
    for i := 0 to |words|
      invariant IsTally(freq, NonEmpty(words[..i]))
      invariant TotalCount(freq) == |NonEmpty(words[..i])|
    {
      var word := words[i];
      NonEmptyStep(words, i);
      if word != "" {
        TallyStep(freq, NonEmpty(words[..i]), word);
        TotalCountIncrement(freq, word);
        freq := Increment(freq, word);
      } else {
        assert NonEmpty(words[..i + 1]) == NonEmpty(words[..i]);
      }
    }
    assert words[..|words|] == words;
    TallyCountsArePositive(freq, NonEmpty(words));
  }

  /**
   * The word-frequency table of `text`: trims and lowercases it, drops every
   * character other than 'a'..'z' and the space, splits the rest on spaces
   * and counts each non-empty field.
   */
  method WordFrequency(text: string) returns (freq: map<string, int>)
    ensures IsTally(freq, Words(text))
    ensures forall w :: w in freq ==> freq[w] >= 1
    ensures TotalCount(freq) == |Words(text)|
  {
    var t := TrimSpace(text);
    t := ToLower(t);
    var cleaned := RemovePunctuation(t);
    var words := Split(cleaned);
    freq := CountWords(words);
  }
}
