/** Rendering a bit mask as the words of the flags it holds, and reading the
    words back. Both formatters of the window are instances of this scheme:
    they test a fixed table of flags in order and append "WORD " for each one
    that is set. */
module FlagText {

  /** A bit position of a 32-bit flags word. */
  newtype Bit = i: int | 0 <= i < 32

  /** A flags word, as the set of positions of its one bits. Every flag the
      formatters test is a single bit, so `(word & flag) != 0` holds exactly
      when the flag's position is in this set. */
  type Mask = set<Bit>

  /** One flag a formatter tests: the bit it looks for and the word it prints. */
  datatype Flag = Flag(bit: Bit, word: string)

  /** What the formatters rely on in their tables: every word is non-empty and
      has no space in it, and no word is used twice. */
  predicate WellFormed(table: seq<Flag>)
  {
    && (forall i :: 0 <= i < |table| ==> table[i].word != [] && ' ' !in table[i].word)
    && (forall i, j :: 0 <= i < j < |table| ==> table[i].word != table[j].word)
  }

  /** Whether `mask` has `bit` set: the test `(mask & flag) != 0` that each
      formatter line makes. */
  predicate IsSet(mask: Mask, bit: Bit)
  {
    bit in mask
  }

  /** No element occurs twice. */
  predicate Distinct<T(==)>(s: seq<T>)
  {
    forall i, j :: 0 <= i < j < |s| ==> s[i] != s[j]
  }

  /** The words of the flags of `table` that are set in `mask`, in table order. */
  function SetWords(table: seq<Flag>, mask: Mask): (ws: seq<string>)
    ensures |ws| <= |table|
    ensures forall w :: w in ws ==>
              exists i :: 0 <= i < |table| && table[i].word == w && IsSet(mask, table[i].bit)
  {
    if table == [] then []
    else
      var rest := SetWords(table[1..], mask);
      assert forall w :: w in rest ==>
               exists i :: 0 <= i < |table| && table[i].word == w && IsSet(mask, table[i].bit) by {
        forall w | w in rest
          ensures exists i :: 0 <= i < |table| && table[i].word == w && IsSet(mask, table[i].bit)
        {
          var k :| 0 <= k < |table[1..]| && table[1..][k].word == w && IsSet(mask, table[1..][k].bit);
          assert table[k + 1] == table[1..][k];
        }
      }
      (if IsSet(mask, table[0].bit) then [table[0].word] else []) + rest
  }

  /** Each word followed by one space, all concatenated. */
  function Spaced(ws: seq<string>): string
  {
    if ws == [] then "" else ws[0] + " " + Spaced(ws[1..])
  }

  /** The text a formatter builds for `mask`: it tests the flags in table
      order and appends each one's token to what it has so far. */
  function Text(table: seq<Flag>, mask: Mask): string
    decreases |table|
  {
    if table == [] then "" else Text(table[..|table| - 1], mask) + Token(table[|table| - 1], mask)
  }

  /** The bits of all flags of the table. */
  function Known(table: seq<Flag>): Mask
  {
    if table == [] then {} else {table[0].bit} + Known(table[1..])
  }

  /** Index of the first space in `s`, or `|s|` when there is none. */
  function SpaceIndex(s: string): (k: nat)
    ensures k <= |s|
    ensures k < |s| ==> s[k] == ' '
    ensures forall j :: 0 <= j < k ==> s[j] != ' '
  {
    if s == [] || s[0] == ' ' then 0 else 1 + SpaceIndex(s[1..])
  }

  /** Splits a text into the words that a space terminates; an unterminated
      tail counts as a last word. The inverse of `Spaced`. */
  function Words(s: string): seq<string>
    decreases |s|
  {
    if s == [] then []
    else
      var k := SpaceIndex(s);
      if k == |s| then [s] else [s[..k]] + Words(s[k + 1..])
  }

  /** The bits of the flags whose words occur in `ws`. */
  function MaskOf(table: seq<Flag>, ws: seq<string>): Mask
  {
    if table == [] then {}
    else (if table[0].word in ws then {table[0].bit} else {}) + MaskOf(table[1..], ws)
  }

  /** Reads a formatter's text back into the mask of the flags it names. */
  function Parse(table: seq<Flag>, s: string): Mask
  {
    MaskOf(table, Words(s))
  }

  /** What one flag contributes to the text: its word and a space when set. */
  function Token(f: Flag, mask: Mask): string
  {
    if IsSet(mask, f.bit) then f.word + " " else ""
  }

  /** Testing one more flag appends that flag's token. */
  lemma TextStep(table: seq<Flag>, mask: Mask, k: nat)
    requires k < |table|
    ensures Text(table[..k + 1], mask) == Text(table[..k], mask) + Token(table[k], mask)
  {
    assert table[..k + 1][..k] == table[..k];
  }

  /** The text of a five-flag table, token by token. */
  lemma TextOfFive(t: seq<Flag>, mask: Mask)
    requires |t| == 5
    ensures Text(t, mask) ==
              Token(t[0], mask) + Token(t[1], mask) + Token(t[2], mask) + Token(t[3], mask) + Token(t[4], mask)
  {
    var a, b, c, d, e := Token(t[0], mask), Token(t[1], mask), Token(t[2], mask), Token(t[3], mask), Token(t[4], mask);
    assert t[..0] == [];
    TextStep(t, mask, 0);
    assert Text(t[..1], mask) == a;
    TextStep(t, mask, 1);
    assert Text(t[..2], mask) == a + b;
    TextStep(t, mask, 2);
    assert Text(t[..3], mask) == a + b + c;
    TextStep(t, mask, 3);
    assert Text(t[..4], mask) == a + b + c + d;
    TextStep(t, mask, 4);
    assert t[..5] == t;
  }

  /** Joining two word lists joins their texts. */
  lemma {:induction false} SpacedAppend(a: seq<string>, b: seq<string>)
    ensures Spaced(a + b) == Spaced(a) + Spaced(b)
  {
    if a == [] {
      assert a + b == b;
    } else {
      assert (a + b)[0] == a[0] && (a + b)[1..] == a[1..] + b;
      SpacedAppend(a[1..], b);
    }
  }

  /** The words of a table are those of all flags but the last, then the
      last flag's word if it is set. */
  lemma {:induction false} SetWordsSnoc(table: seq<Flag>, mask: Mask)
    requires table != []
    ensures SetWords(table, mask) ==
            SetWords(table[..|table| - 1], mask)
            + (if IsSet(mask, table[|table| - 1].bit) then [table[|table| - 1].word] else [])
  {
    var n := |table|;
    if n > 1 {
      var init := table[..n - 1];
      assert init[1..] == table[1..][..n - 2];
      assert init[0] == table[0];
      SetWordsSnoc(table[1..], mask);
    }
  }

  /** The text built flag by flag is the words of the set flags, in table
      order, each followed by a space. */
  lemma {:induction false} TextIsSpacedWords(table: seq<Flag>, mask: Mask)
    ensures Text(table, mask) == Spaced(SetWords(table, mask))
    decreases |table|
  {
    if table != [] {
      var n := |table|;
      var last := table[n - 1];
      var init := SetWords(table[..n - 1], mask);
      var tail: seq<string> := if IsSet(mask, last.bit) then [last.word] else [];
      assert Text(table, mask) == Text(table[..n - 1], mask) + Token(last, mask);
      TextIsSpacedWords(table[..n - 1], mask);
      SetWordsSnoc(table, mask);
      assert SetWords(table, mask) == init + tail;
      SpacedAppend(init, tail);
      assert Spaced(tail) == Token(last, mask) by {
        if IsSet(mask, last.bit) {
          assert tail[1..] == [];
          assert Spaced(tail) == last.word + " " + Spaced([]);
        }
      }
    }
  }

  /** A flag's word is in the output exactly when its bit is in the mask. */
  lemma {:induction false} SetWordsMember(table: seq<Flag>, mask: Mask, i: nat)
    requires WellFormed(table)
    requires i < |table|
    ensures table[i].word in SetWords(table, mask) <==> IsSet(mask, table[i].bit)
  {
    var head := if IsSet(mask, table[0].bit) then [table[0].word] else [];
    var rest := SetWords(table[1..], mask);
    assert SetWords(table, mask) == head + rest;
    if i == 0 {
      assert table[0].word !in rest;
    } else {
      assert table[i].word != table[0].word;
      assert table[1..][i - 1] == table[i];
      SetWordsMember(table[1..], mask, i - 1);
    }
  }

  /** No word occurs twice in the output. */
  lemma {:induction false} SetWordsDistinct(table: seq<Flag>, mask: Mask)
    requires WellFormed(table)
    ensures Distinct(SetWords(table, mask))
  {
    if table != [] {
      var rest := SetWords(table[1..], mask);
      SetWordsDistinct(table[1..], mask);
      if IsSet(mask, table[0].bit) {
        var ws := [table[0].word] + rest;
        assert SetWords(table, mask) == ws;
        forall i, j | 0 <= i < j < |ws| ensures ws[i] != ws[j] {
          if i == 0 {
            assert ws[j] == rest[j - 1] && ws[j] in rest;
            var k :| 0 <= k < |table[1..]| && table[1..][k].word == ws[j] && IsSet(mask, table[1..][k].bit);
            assert table[k + 1].word == ws[j];
          } else {
            assert ws[i] == rest[i - 1] && ws[j] == rest[j - 1];
          }
        }
      }
    }
  }

  /** Bits outside the table's flags have no effect on the output. */
  lemma {:induction false} SetWordsOnlyKnownBits(table: seq<Flag>, m1: Mask, m2: Mask)
    requires m1 * Known(table) == m2 * Known(table)
    ensures SetWords(table, m1) == SetWords(table, m2)
  {
    if table != [] {
      assert table[0].bit in m1 <==> table[0].bit in m2 by {
        assert table[0].bit in Known(table);
        assert table[0].bit in m1 <==> table[0].bit in m1 * Known(table);
      }
      var k, rest := Known(table), Known(table[1..]);
      forall x | x in rest ensures x in m1 <==> x in m2 {
        assert x in k && (x in m1 * k <==> x in m2 * k);
      }
      assert m1 * rest == m2 * rest;
      SetWordsOnlyKnownBits(table[1..], m1, m2);
    }
  }

  /** The output is empty exactly when no flag of the table is set. */
  lemma {:induction false} SetWordsEmpty(table: seq<Flag>, mask: Mask)
    ensures SetWords(table, mask) == [] <==> mask * Known(table) == {}
  {
    if table != [] {
      var b, rest := table[0].bit, Known(table[1..]);
      assert Known(table) == {b} + rest;
      assert mask * Known(table) == {} <==> b !in mask && mask * rest == {} by {
        if b in mask {
          assert b in mask * Known(table);
        }
        if mask * rest != {} {
          var x :| x in mask * rest;
          assert x in mask * Known(table);
        }
      }
      SetWordsEmpty(table[1..], mask);
      assert SetWords(table, mask) ==
             (if IsSet(mask, b) then [table[0].word] else []) + SetWords(table[1..], mask);
    }
  }

  /** Joining words with trailing spaces gives the empty text exactly for no words. */
  lemma SpacedEmpty(ws: seq<string>)
    ensures Spaced(ws) == "" <==> ws == []
  {
  }

  /** The length of the text is the total length of its tokens. */
  lemma {:induction false} SpacedLength(ws: seq<string>)
    ensures |Spaced(ws)| == |ws| + TotalLength(ws)
  {
    if ws != [] {
      SpacedLength(ws[1..]);
    }
  }

  /** Sum of the lengths of the words. */
  function TotalLength(ws: seq<string>): nat
  {
    if ws == [] then 0 else |ws[0]| + TotalLength(ws[1..])
  }

  /** A text of non-empty words without spaces does not start with a space,
      ends with exactly one space, and never has two spaces in a row. */
  lemma {:induction false} SpacedShape(ws: seq<string>)
    requires forall i :: 0 <= i < |ws| ==> ws[i] != [] && ' ' !in ws[i]
    ensures var s := Spaced(ws);
            && (s != [] ==> s[0] != ' ' && s[|s| - 1] == ' ')
            && (forall j :: 0 <= j < |s| - 1 && s[j] == ' ' ==> s[j + 1] != ' ')
  {
    if ws != [] {
      var w, t := ws[0], Spaced(ws[1..]);
      SpacedShape(ws[1..]);
      var s := w + " " + t;
      assert Spaced(ws) == s;
      assert s[0] == w[0];
      assert w[0] in w;
      forall j | 0 <= j < |s| - 1 ensures s[j] == ' ' ==> s[j + 1] != ' ' {
        if j < |w| {
          assert s[j] == w[j] && w[j] in w;
        } else if j == |w| {
          if t != [] {
            assert s[j + 1] == t[0];
          }
        } else {
          assert s[j] == t[j - |w| - 1] && s[j + 1] == t[j - |w|];
        }
      }
      if t == [] {
        assert s[|s| - 1] == ' ';
      } else {
        assert s[|s| - 1] == t[|t| - 1];
      }
    }
  }

  /** The first space of "w rest" with a space-free `w` is right after `w`. */
  lemma {:induction false} SpaceIndexAfterWord(w: string, rest: string)
    requires ' ' !in w
    ensures SpaceIndex(w + " " + rest) == |w|
  {
    if w != [] {
      assert w[0] in w;
      assert (w + " " + rest)[1..] == w[1..] + " " + rest;
      assert forall c :: c in w[1..] ==> c in w;
      SpaceIndexAfterWord(w[1..], rest);
    }
  }

  /** Splitting a formatted text gives back exactly the words it was made of. */
  lemma {:induction false} WordsOfSpaced(ws: seq<string>)
    requires forall i :: 0 <= i < |ws| ==> ' ' !in ws[i]
    ensures Words(Spaced(ws)) == ws
  {
    if ws != [] {
      var w, t := ws[0], Spaced(ws[1..]);
      var s := w + " " + t;
      assert Spaced(ws) == s;
      SpaceIndexAfterWord(w, t);
      assert s[..|w|] == w;
      assert s[|w| + 1..] == t;
      WordsOfSpaced(ws[1..]);
      assert ws == [w] + ws[1..];
    }
  }

  /** Decoding the words of the flags a mask sets gives the mask restricted to
      the table's flags; `ws` stands for any list with the same membership. */
  lemma {:induction false} MaskOfMembers(table: seq<Flag>, ws: seq<string>, mask: Mask)
    requires forall i :: 0 <= i < |table| ==> (table[i].word in ws <==> IsSet(mask, table[i].bit))
    ensures MaskOf(table, ws) == mask * Known(table)
  {
    if table != [] {
      forall i | 0 <= i < |table[1..]|
        ensures table[1..][i].word in ws <==> IsSet(mask, table[1..][i].bit)
      {
        assert table[1..][i] == table[i + 1];
      }
      MaskOfMembers(table[1..], ws, mask);
    }
  }

  /** Parsing a formatter's text gives back the mask, with the bits that the
      formatter ignores cleared. */
  lemma ParseText(table: seq<Flag>, mask: Mask)
    requires WellFormed(table)
    ensures Parse(table, Text(table, mask)) == mask * Known(table)
  {
    TextIsSpacedWords(table, mask);
    var ws := SetWords(table, mask);
    forall i | 0 <= i < |ws| ensures ' ' !in ws[i] {
      assert ws[i] in ws;
    }
    WordsOfSpaced(ws);
    forall i | 0 <= i < |table| ensures table[i].word in ws <==> IsSet(mask, table[i].bit) {
      SetWordsMember(table, mask, i);
    }
    MaskOfMembers(table, ws, mask);
  }

  /** Everything a formatter promises about its text, for a well-formed table:
      it is empty exactly when no flag is set, it splits back into the set
      flags' words (each at most once, each present exactly when its flag is
      set), it has the shape "WORD WORD ... WORD ", its length is that of its
      tokens, and it parses back into the mask. */
  lemma TextFacts(table: seq<Flag>, mask: Mask)
    requires WellFormed(table)
    ensures var s, ws := Text(table, mask), SetWords(table, mask);
            && (s == "" <==> mask * Known(table) == {})
            && Words(s) == ws
            && Distinct(Words(s))
            && (forall i :: 0 <= i < |table| ==> (table[i].word in Words(s) <==> IsSet(mask, table[i].bit)))
            && (s != [] ==> s[0] != ' ' && s[|s| - 1] == ' ')
            && (forall j :: 0 <= j < |s| - 1 && s[j] == ' ' ==> s[j + 1] != ' ')
            && |s| == |ws| + TotalLength(ws)
            && Parse(table, s) == mask * Known(table)
  {
    TextIsSpacedWords(table, mask);
    var ws := SetWords(table, mask);
    forall i | 0 <= i < |ws| ensures ws[i] != [] && ' ' !in ws[i] {
      assert ws[i] in ws;
    }
    SetWordsEmpty(table, mask);
    SpacedEmpty(ws);
    WordsOfSpaced(ws);
    SetWordsDistinct(table, mask);
    forall i | 0 <= i < |table| ensures table[i].word in ws <==> IsSet(mask, table[i].bit) {
      SetWordsMember(table, mask, i);
    }
    SpacedShape(ws);
    SpacedLength(ws);
    ParseText(table, mask);
  }
}
