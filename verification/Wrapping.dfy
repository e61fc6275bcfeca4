/**
 Breaking a message into lines (wrap in cmd/altshift_web_security/report.go). Text is
 decoded into code points, and each keeps the bytes it takes up, which is what the source
 measures.
 */
module Wrapping {
  import opened Bytes

  // A code point and its width in bytes. A byte that is not part of any is one with the
  // replacement character's code.
  datatype Rune = Rune(code: nat, width: Width)

  type Width = w: nat | 1 <= w <= 4 witness 1

  type Text = seq<Rune>

  const SPACE: Rune := Rune(32, 1)

  // White space as Unicode has it.
  predicate IsSpace(r: Rune) {
    || 9 <= r.code <= 13 || r.code in {0x20, 0x85, 0xA0, 0x1680, 0x2028, 0x2029, 0x202F, 0x205F, 0x3000}
    || 0x2000 <= r.code <= 0x200A
  }

  // How long a text is, in bytes.
  function Size(text: Text): nat {
    if text == [] then 0 else text[0].width + Size(text[1..])
  }

  lemma SizeOfOne(r: Rune)
    ensures Size([r]) == r.width
  {
    var rest: Text := [r][1..];
    assert rest == [];
  }

  lemma {:induction false} SizeAppend(a: Text, b: Text)
    ensures Size(a + b) == Size(a) + Size(b)
  {
    if a == [] {
      assert a + b == b;
    } else {
      ConsAppend(a, b);
      SizeAppend(a[1..], b);
    }
  }

  // Whatever bytes the code points are written in, as many as each is wide, the length of a
  // text is theirs.
  lemma {:induction false} SizeIsBytes(text: Text, encode: Rune -> seq<Byte>)
    requires forall r :: |encode(r)| == r.width
    ensures |Concat(seq(|text|, i requires 0 <= i < |text| => encode(text[i])))| == Size(text)
  {
    if text != [] {
      var parts := seq(|text|, i requires 0 <= i < |text| => encode(text[i]));
      var rest := text[1..];
      SizeIsBytes(rest, encode);
      assert parts[1..] == seq(|rest|, i requires 0 <= i < |rest| => encode(rest[i]));
    }
  }

  // The code points with the property White_Space.
  lemma SpacesAre(r: Rune)
    ensures IsSpace(r) <==> r.code in {
      0x09, 0x0A, 0x0B, 0x0C, 0x0D, 0x20, 0x85, 0xA0, 0x1680, 0x2000, 0x2001, 0x2002, 0x2003, 0x2004, 0x2005,
      0x2006, 0x2007, 0x2008, 0x2009, 0x200A, 0x2028, 0x2029, 0x202F, 0x205F, 0x3000}
  {
  }

  // --- Fields -----------------------------------------------------------------------------

  // How far the first word of a text reaches.
  function WordEnd(text: Text): (n: nat)
    ensures n <= |text|
    ensures forall i :: 0 <= i < n ==> !IsSpace(text[i])
    ensures n < |text| ==> IsSpace(text[n])
  {
    if text == [] || IsSpace(text[0]) then 0 else 1 + WordEnd(text[1..])
  }

  function Fields(text: Text): seq<Text>
    decreases |text|
  {
    if text == [] then []
    else if IsSpace(text[0]) then Fields(text[1..])
    else [text[..WordEnd(text)]] + Fields(text[WordEnd(text)..])
  }

  predicate IsWord(word: Text) {
    word != [] && forall i :: 0 <= i < |word| ==> !IsSpace(word[i])
  }

  ghost predicate AreWords(words: seq<Text>) {
    forall i :: 0 <= i < |words| ==> IsWord(words[i])
  }

  lemma {:induction false} FieldsAreWords(text: Text)
    ensures AreWords(Fields(text))
    decreases |text|
  {
    if text == [] {
    } else if IsSpace(text[0]) {
      FieldsAreWords(text[1..]);
    } else {
      FieldsAreWords(text[WordEnd(text)..]);
    }
  }

  // Words with one space between them.
  function Join(words: seq<Text>): Text {
    if words == [] then [] else
    var n := |words| - 1;
    if n == 0 then words[0] else Join(words[..n]) + [SPACE] + words[n]
  }

  lemma JoinSnoc(words: seq<Text>, word: Text)
    requires words != []
    ensures Join(words + [word]) == Join(words) + [SPACE] + word
  {
    assert (words + [word])[..|words|] == words;
  }

  lemma {:induction false} JoinCons(word: Text, words: seq<Text>)
    requires words != []
    ensures Join([word] + words) == word + ([SPACE] + Join(words))
  {
    var n := |words| - 1;
    var last := words[n];
    if n == 0 {
      assert words == [last];
      JoinSnoc([word], last);
    } else {
      JoinCons(word, words[..n]);
      assert [word] + words == ([word] + words[..n]) + [last];
      JoinSnoc([word] + words[..n], last);
      assert words == words[..n] + [last];
      JoinSnoc(words[..n], last);
    }
  }

  lemma JoinConsSize(word: Text, words: seq<Text>)
    requires words != []
    ensures Size(Join([word] + words)) == Size(word) + 1 + Size(Join(words))
  {
    JoinCons(word, words);
    SizeAppend(word, [SPACE] + Join(words));
    SizeAppend([SPACE], Join(words));
    SizeOfOne(SPACE);
  }

  lemma FieldFirst(word: Text, rest: Text)
    requires IsWord(word) && (rest == [] || IsSpace(rest[0]))
    ensures Fields(word + rest) == [word] + Fields(rest)
  {
    WordEndAt(word, rest);
    assert (word + rest)[..|word|] == word && (word + rest)[|word|..] == rest;
  }

  lemma {:induction false} WordEndAt(word: Text, rest: Text)
    requires forall i :: 0 <= i < |word| ==> !IsSpace(word[i])
    requires rest == [] || IsSpace(rest[0])
    ensures WordEnd(word + rest) == |word|
  {
    if word == [] {
      assert word + rest == rest;
    } else {
      assert (word + rest)[1..] == word[1..] + rest;
      WordEndAt(word[1..], rest);
    }
  }

  // Reading a line gives back the words it was made of.
  lemma {:induction false} FieldsOfJoin(words: seq<Text>)
    requires AreWords(words)
    ensures Fields(Join(words)) == words
  {
    if words == [] {
    } else if |words| == 1 {
      FieldFirst(words[0], []);
      assert words[0] + [] == words[0];
    } else {
      var rest := words[1..];
      FieldsOfJoin(rest);
      assert words == [words[0]] + rest;
      JoinCons(words[0], rest);
      FieldFirst(words[0], [SPACE] + Join(rest));
      assert ([SPACE] + Join(rest))[1..] == Join(rest);
    }
  }

  // --- Lines ------------------------------------------------------------------------------

  // From a line of the first n words, how many words the line takes in the end.
  function Fill(words: seq<Text>, n: nat, width: int): (m: nat)
    requires 0 < n <= |words|
    ensures n <= m <= |words|
    decreases |words| - n
  {
    if n < |words| && Size(Join(words[..n])) + 1 + Size(words[n]) <= width then Fill(words, n + 1, width) else n
  }

  // The words of each line.
  function Lines(words: seq<Text>, width: int): seq<seq<Text>>
    decreases |words|
  {
    if words == [] then [] else
    var n := Fill(words, 1, width);
    [words[..n]] + Lines(words[n..], width)
  }

  // A line that fits, or one word that cannot be helped.
  predicate FitsWidth(line: seq<Text>, width: int) {
    |line| == 1 || (line != [] && Size(Join(line)) <= width)
  }

  // Some way to break these words into lines.
  ghost predicate Division(lines: seq<seq<Text>>, words: seq<Text>, width: int) {
    Concat(lines) == words && forall i :: 0 <= i < |lines| ==> FitsWidth(lines[i], width)
  }

  lemma LineGrows(words: seq<Text>, n: nat)
    requires 0 < n < |words|
    ensures Join(words[..n + 1]) == Join(words[..n]) + [SPACE] + words[n]
    ensures Size(Join(words[..n + 1])) == Size(Join(words[..n])) + 1 + Size(words[n])
  {
    assert words[..n + 1] == words[..n] + [words[n]];
    JoinSnoc(words[..n], words[n]);
    SizeAppend(Join(words[..n]) + [SPACE], words[n]);
    SizeAppend(Join(words[..n]), [SPACE]);
    SizeOfOne(SPACE);
  }

  lemma LineFits(words: seq<Text>, n: nat, width: int)
    requires 0 < n < |words| && Size(Join(words[..n])) + 1 + Size(words[n]) <= width
    ensures FitsWidth(words[..n + 1], width)
  {
    LineGrows(words, n);
  }

  lemma {:induction false} FillFits(words: seq<Text>, n: nat, width: int)
    requires 0 < n <= |words| && FitsWidth(words[..n], width)
    ensures FitsWidth(words[..Fill(words, n, width)], width)
    decreases |words| - n
  {
    if n < |words| && Size(Join(words[..n])) + 1 + Size(words[n]) <= width {
      LineFits(words, n, width);
      FillFits(words, n + 1, width);
    }
  }

  // The greedy lines are a division.
  lemma {:induction false} LinesDivide(words: seq<Text>, width: int)
    ensures Division(Lines(words, width), words, width)
    decreases |words|
  {
    if words != [] {
      var n := Fill(words, 1, width);
      FillFits(words, 1, width);
      LinesDivide(words[n..], width);
      assert words == words[..n] + words[n..];
    }
  }

  lemma {:induction false} JoinLongerThanPrefix(words: seq<Text>, n: nat, m: nat)
    requires 0 < n <= m <= |words|
    ensures Size(Join(words[..n])) <= Size(Join(words[..m]))
  {
    if n < m {
      JoinLongerThanPrefix(words, n, m - 1);
      LineGrows(words, m - 1);
    }
  }

  // No line that fits takes more words than the greedy one.
  lemma {:induction false} FillReaches(words: seq<Text>, n: nat, m: nat, width: int)
    requires 0 < n <= m <= |words| && FitsWidth(words[..m], width)
    ensures m <= Fill(words, n, width)
    decreases |words| - n
  {
    if n < m {
      LineGrows(words, n);
      JoinLongerThanPrefix(words, n + 1, m);
      FillReaches(words, n + 1, m, width);
    }
  }

  lemma {:induction false} JoinLongerThanSuffix(words: seq<Text>, k: nat)
    requires k < |words|
    ensures Size(Join(words[k..])) <= Size(Join(words))
  {
    if k == 0 {
      assert words[k..] == words;
    } else {
      JoinLongerThanSuffix(words[1..], k - 1);
      assert words[1..][k - 1..] == words[k..];
      assert words == [words[0]] + words[1..];
      JoinCons(words[0], words[1..]);
      JoinConsSize(words[0], words[1..]);
    }
  }

  // A division with some words left off the front, in no more lines.
  lemma {:induction false} Shorten(lines: seq<seq<Text>>, words: seq<Text>, k: nat, width: int)
    returns (shorter: seq<seq<Text>>)
    requires Division(lines, words, width) && k <= |words|
    ensures Division(shorter, words[k..], width) && |shorter| <= |lines|
  {
    if lines == [] || k == 0 {
      assert words[k..] == words;
      return lines;
    }
    var first, more := lines[0], lines[1..];
    var rest := Concat(more);
    assert words == first + rest;
    assert Division(more, rest, width);
    if k >= |first| {
      shorter := Shorten(more, rest, k - |first|, width);
      assert words[k..] == rest[k - |first|..];
    } else {
      JoinLongerThanSuffix(first, k);
      shorter := [first[k..]] + more;
      assert words[k..] == first[k..] + rest;
      assert shorter[1..] == more;
    }
  }

  // No division of the words has fewer lines.
  lemma {:induction false} FewestLines(words: seq<Text>, width: int, other: seq<seq<Text>>)
    requires Division(other, words, width)
    ensures |Lines(words, width)| <= |other|
    decreases |words|
  {
    if words != [] {
      var n := Fill(words, 1, width);
      var m := |other[0]|;
      assert words == other[0] + Concat(other[1..]);
      assert words[..m] == other[0];
      FillReaches(words, 1, m, width);
      assert Division(other[1..], words[m..], width);
      var shorter := Shorten(other[1..], words[m..], n - m, width);
      assert words[m..][n - m..] == words[n..];
      FewestLines(words[n..], width, shorter);
    }
  }

  // --- wrap -------------------------------------------------------------------------------

  function Joined(lines: seq<seq<Text>>): (texts: seq<Text>)
    ensures |texts| == |lines|
    ensures forall i :: 0 <= i < |texts| ==> texts[i] == Join(lines[i])
  {
    seq(|lines|, i requires 0 <= i < |lines| => Join(lines[i]))
  }

  function Wrapped(text: Text, width: int): seq<Text> {
    if width <= 0 then Fields(text) else Joined(Lines(Fields(text), width))
  }

  function AllFields(lines: seq<Text>): seq<Text> {
    if lines == [] then [] else Fields(lines[0]) + AllFields(lines[1..])
  }

  lemma {:induction false} FieldsOfLines(lines: seq<seq<Text>>)
    requires forall i :: 0 <= i < |lines| ==> AreWords(lines[i])
    ensures AllFields(Joined(lines)) == Concat(lines)
  {
    if lines != [] {
      FieldsOfJoin(lines[0]);
      assert Joined(lines)[1..] == Joined(lines[1..]);
      FieldsOfLines(lines[1..]);
    }
  }

  lemma {:induction false} WordsOfLines(lines: seq<seq<Text>>)
    requires AreWords(Concat(lines))
    ensures forall i :: 0 <= i < |lines| ==> AreWords(lines[i])
  {
    if lines != [] {
      var rest := Concat(lines[1..]);
      assert forall k :: 0 <= k < |lines[0]| ==> lines[0][k] == Concat(lines)[k];
      assert forall k :: 0 <= k < |rest| ==> rest[k] == Concat(lines)[|lines[0]| + k];
      WordsOfLines(lines[1..]);
      assert forall i :: 0 < i < |lines| ==> lines[i] == lines[1..][i - 1];
    }
  }

  lemma {:induction false} OneWordEach(words: seq<Text>)
    requires AreWords(words)
    ensures AllFields(words) == words
  {
    if words != [] {
      FieldsOfJoin([words[0]]);
      OneWordEach(words[1..]);
    }
  }

  // What wrapping promises of any text: no word is lost, split or moved, and only a line
  // of a single word is longer than the width.
  lemma WrapKeepsWords(text: Text, width: int)
    ensures AllFields(Wrapped(text, width)) == Fields(text)
    ensures forall i :: 0 <= i < |Wrapped(text, width)| ==>
      Size(Wrapped(text, width)[i]) <= width || IsWord(Wrapped(text, width)[i])
  {
    var words := Fields(text);
    FieldsAreWords(text);
    if width <= 0 {
      OneWordEach(words);
    } else {
      var lines := Lines(words, width);
      LinesDivide(words, width);
      WordsOfLines(lines);
      FieldsOfLines(lines);
      forall i | 0 <= i < |lines| ensures Size(Join(lines[i])) <= width || IsWord(Join(lines[i])) {
        assert FitsWidth(lines[i], width) && AreWords(lines[i]);
      }
    }
  }

  // And no other way of breaking the same words takes fewer lines.
  lemma WrapIsShortest(text: Text, width: int, other: seq<Text>)
    requires AllFields(other) == Fields(text)
    requires forall i :: 0 <= i < |other| ==>
      Fields(other[i]) != [] && (Size(other[i]) <= width || |Fields(other[i])| == 1)
    ensures width > 0 ==> |Wrapped(text, width)| <= |other|
  {
    if width > 0 {
      var division := FieldsOf(other);
      ConcatFields(other);
      forall i | 0 <= i < |division| ensures FitsWidth(division[i], width) {
        FieldsNoLonger(other[i]);
      }
      FewestLines(Fields(text), width, division);
    }
  }

  function FieldsOf(lines: seq<Text>): (division: seq<seq<Text>>)
    ensures |division| == |lines|
    ensures forall i :: 0 <= i < |lines| ==> division[i] == Fields(lines[i])
  {
    seq(|lines|, i requires 0 <= i < |lines| => Fields(lines[i]))
  }

  lemma {:induction false} ConcatFields(lines: seq<Text>)
    ensures Concat(FieldsOf(lines)) == AllFields(lines)
  {
    if lines != [] {
      assert FieldsOf(lines)[1..] == FieldsOf(lines[1..]);
      ConcatFields(lines[1..]);
    }
  }

  // Single spaces are the least a line can do with.
  lemma {:induction false} FieldsNoLonger(line: Text)
    ensures Size(Join(Fields(line))) <= Size(line)
    decreases |line|
  {
    if line == [] {
    } else if IsSpace(line[0]) {
      FieldsNoLonger(line[1..]);
    } else {
      var n := WordEnd(line);
      var rest := line[n..];
      SplitAt(line, n);
      SizeAppend(line[..n], rest);
      FieldsNoLonger(rest);
      if Fields(rest) == [] {
        assert Fields(line) == [line[..n]];
      } else {
        JoinConsSize(line[..n], Fields(rest));
        FieldsNoLonger(rest[1..]);
      }
    }
  }

  lemma OneWordOn(words: seq<Text>, n: nat, fields: seq<Text>, i: nat)
    requires n <= |words| && i < |fields| && words[n..] == fields[i..]
    ensures n < |words| && words[n] == fields[i]
    ensures words[n + 1..] == fields[i + 1..] && words[n..][1..] == fields[i + 1..]
    ensures words[n..][..1] == [fields[i]]
    ensures words[..n + 1] == words[..n] + [fields[i]]
  {
    assert words[n..][0] == fields[i..][0];
    assert words[n..][1..] == fields[i..][1..];
  }

  method Wrap(text: Text, width: int) returns (lines: seq<Text>)
    ensures lines == Wrapped(text, width)
  {
    var fields := Fields(text);
    if |fields| == 0 {
      return [];
    }
    if width <= 0 {
      return fields;
    }
    lines := [];
    var current := fields[0];
    // The words from the start of the current line on, and how many of them it has.
    ghost var words, n: nat := fields, 1;
    assert words[..1] == [fields[0]] && lines + Joined(Lines(words, width)) == Joined(Lines(words, width));
    for i := 1 to |fields|
      invariant 0 < n <= |words| && |words| - n == |fields| - i
      invariant words[n..] == fields[i..]
      invariant current == Join(words[..n])
      invariant Fill(words, 1, width) == Fill(words, n, width)
      invariant Joined(Lines(fields, width)) == lines + Joined(Lines(words, width))
    {
      OneWordOn(words, n, fields, i);
      if Size(current) + 1 + Size(fields[i]) > width {
        LineDone(lines, words, n, width);
        lines := lines + [current];
        current := fields[i];
        words, n := words[n..], 1;
      } else {
        LineGrows(words, n);
        current := current + [SPACE] + fields[i];
        n := n + 1;
      }
    }
    LineEnds(words, n, width);
    lines := lines + [current];
  }

  lemma LineDone(lines: seq<Text>, words: seq<Text>, n: nat, width: int)
    requires 0 < n <= |words| && Fill(words, 1, width) == Fill(words, n, width)
    requires n == |words| || Size(Join(words[..n])) + 1 + Size(words[n]) > width
    ensures lines + Joined(Lines(words, width)) == lines + [Join(words[..n])] + Joined(Lines(words[n..], width))
  {
    LineEnds(words, n, width);
    Associate(lines, [Join(words[..n])], Joined(Lines(words[n..], width)));
  }

  lemma LineEnds(words: seq<Text>, n: nat, width: int)
    requires 0 < n <= |words| && Fill(words, 1, width) == Fill(words, n, width)
    requires n == |words| || Size(Join(words[..n])) + 1 + Size(words[n]) > width
    ensures Joined(Lines(words, width)) == [Join(words[..n])] + Joined(Lines(words[n..], width))
  {
    assert Fill(words, 1, width) == n;
    JoinedCons(words[..n], Lines(words[n..], width));
  }

  lemma JoinedCons(line: seq<Text>, more: seq<seq<Text>>)
    ensures Joined([line] + more) == [Join(line)] + Joined(more)
  {
  }
}
