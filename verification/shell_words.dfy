/** How a command line falls apart into arguments. Following section 2.3
    (Token Recognition) of the POSIX Shell Command Language, the blanks space
    and tab separate the words of a command, runs of blanks counting as one
    separator, and a newline ends the command: whatever follows it is the
    next command. Only that first command reaches the program it names. */
module ShellWords {

  import opened Seqs

  /** The characters that separate arguments: space and tab. */
  predicate IsBlank(c: char)
  {
    c == ' ' || c == '\t'
  }

  /** `w` contains no blank. */
  predicate NoBlank(w: string)
  {
    forall i :: 0 <= i < |w| ==> !IsBlank(w[i])
  }

  /** A single argument that survives splitting intact: non-empty, no blank. */
  predicate IsWord(w: string)
  {
    |w| > 0 && NoBlank(w)
  }

  /** The pieces of `s` between single blanks, empty pieces included. */
  function Fields(s: string): (r: seq<string>)
    ensures |r| >= 1
    decreases |s|
  {
    if |s| == 0 then [""]
    else
      var rest := Fields(s[1..]);
      if IsBlank(s[0]) then [""] + rest
      else [[s[0]] + rest[0]] + rest[1..]
  }

  /** No field holds a blank. */
  lemma {:induction false} FieldsHaveNoBlank(s: string)
    ensures forall i :: 0 <= i < |Fields(s)| ==> NoBlank(Fields(s)[i])
    decreases |s|
  {
    if |s| > 0 {
      FieldsHaveNoBlank(s[1..]);
      var rest := Fields(s[1..]);
      if !IsBlank(s[0]) {
        var first := [s[0]] + rest[0];
        assert forall j :: 1 <= j < |first| ==> first[j] == rest[0][j - 1];
        assert NoBlank(first);
        assert Fields(s) == [first] + rest[1..];
      }
    }
  }

  /** `ws` without its empty strings. */
  function NonEmpty(ws: seq<string>): (r: seq<string>)
    decreases |ws|
  {
    if |ws| == 0 then []
    else (if ws[0] == "" then [] else [ws[0]]) + NonEmpty(ws[1..])
  }

  /** The arguments `s` splits into. */
  function Words(s: string): seq<string>
  {
    NonEmpty(Fields(s))
  }

  /** `s` holds no newline: the shell reads it as one command. */
  predicate SingleLine(s: string)
  {
    '\n' !in s
  }

  /** The text of `s` before its first newline: the first command of the
      script `s`, or all of `s` when it is one line. */
  function FirstLine(s: string): (r: string)
    ensures SingleLine(r) && r <= s
    ensures SingleLine(s) <==> r == s
    ensures !SingleLine(s) ==> |r| < |s| && s[|r|] == '\n'
    decreases |s|
  {
    if |s| == 0 || s[0] == '\n' then ""
    else
      var r := [s[0]] + FirstLine(s[1..]);
      assert s == [s[0]] + s[1..];
      r
  }

  /** The arguments of the first command of the script `s`: what the program
      that command names receives. */
  function Command(s: string): seq<string>
  {
    Words(FirstLine(s))
  }

  /** Two pieces of a command line with one space between them. */
  function Spaced(a: string, b: string): string
  {
    a + " " + b
  }

  /** Arguments joined by single spaces. */
  function Join(ws: seq<string>): string
    decreases |ws|
  {
    if |ws| == 0 then ""
    else if |ws| == 1 then ws[0]
    else Spaced(ws[0], Join(ws[1..]))
  }

  /** One step of splitting: the first character either ends an (empty)
      field or starts the first field of the rest. */
  lemma FieldsCons(x: char, t: string)
    ensures Fields([x] + t) ==
      if IsBlank(x) then [""] + Fields(t) else [[x] + Fields(t)[0]] + Fields(t)[1..]
  {
    assert ([x] + t)[0] == x;
    assert ([x] + t)[1..] == t;
  }

  /** Fields of `t` that start with those of `u` keep doing so with one more
      character in front of both. */
  lemma FieldsConsAppend(x: char, u: string, t: string, more: seq<string>)
    requires Fields(t) == Fields(u) + more
    ensures Fields([x] + t) == Fields([x] + u) + more
  {
    var fu := Fields(u);
    FieldsCons(x, t);
    FieldsCons(x, u);
    if IsBlank(x) {
      AppendAssoc([""], fu, more);
    } else {
      AppendSplit(fu, more);
      AppendAssoc([[x] + fu[0]], fu[1..], more);
    }
  }

  /** A blank splits the fields of what precedes it from those of what follows. */
  lemma {:induction false} FieldsJoin(a: string, c: char, b: string)
    requires IsBlank(c)
    ensures Fields(a + [c] + b) == Fields(a) + Fields(b)
    decreases |a|
  {
    if |a| == 0 {
      assert a + [c] + b == [c] + b;
      FieldsCons(c, b);
    } else {
      var a1 := a[1..];
      FieldsJoin(a1, c, b);
      FieldsConsAppend(a[0], a1, a1 + [c] + b, Fields(b));
      assert a == [a[0]] + a1;
      assert a + [c] + b == [a[0]] + (a1 + [c] + b);
    }
  }

  /** Text without blanks is one field. */
  lemma {:induction false} FieldsOfNoBlank(w: string)
    requires NoBlank(w)
    ensures Fields(w) == [w]
    decreases |w|
  {
    if |w| > 0 {
      FieldsOfNoBlank(w[1..]);
      assert [w[0]] + w[1..] == w;
    }
  }

  /** Dropping empty strings distributes over concatenation. */
  lemma {:induction false} NonEmptyAppend(xs: seq<string>, ys: seq<string>)
    ensures NonEmpty(xs + ys) == NonEmpty(xs) + NonEmpty(ys)
    decreases |xs|
  {
    if |xs| == 0 {
      assert xs + ys == ys;
    } else {
      assert (xs + ys)[0] == xs[0];
      assert (xs + ys)[1..] == xs[1..] + ys;
      NonEmptyAppend(xs[1..], ys);
    }
  }

  /** Every argument is a word: no argument is empty or holds a blank. */
  lemma WordsAreWords(s: string)
    ensures forall i :: 0 <= i < |Words(s)| ==> IsWord(Words(s)[i])
  {
    FieldsHaveNoBlank(s);
    NonEmptyWords(Fields(s));
  }

  /** Dropping the empty strings from blank-free strings leaves words only. */
  lemma {:induction false} NonEmptyWords(ws: seq<string>)
    requires forall i :: 0 <= i < |ws| ==> NoBlank(ws[i])
    ensures forall i :: 0 <= i < |NonEmpty(ws)| ==> IsWord(NonEmpty(ws)[i])
    decreases |ws|
  {
    if |ws| > 0 {
      NonEmptyWords(ws[1..]);
    }
  }

  /** Splitting at a space: the words of both sides, in order. */
  lemma WordsOfSpaced(a: string, b: string)
    ensures Words(Spaced(a, b)) == Words(a) + Words(b)
  {
    assert a + " " + b == a + [' '] + b;
    FieldsJoin(a, ' ', b);
    NonEmptyAppend(Fields(a), Fields(b));
  }

  /** A word splits into itself; the empty string into nothing. */
  lemma WordsOfWord(w: string)
    ensures IsWord(w) ==> Words(w) == [w]
    ensures w == "" ==> Words(w) == []
  {
    if NoBlank(w) {
      FieldsOfNoBlank(w);
      assert [w][1..] == [];
      assert NonEmpty([w]) == (if w == "" then [] else [w]) + NonEmpty([]);
    }
  }

  /** A word followed by a space and more text splits off as the first argument. */
  lemma WordsCons(w: string, rest: string)
    requires IsWord(w)
    ensures Words(Spaced(w, rest)) == [w] + Words(rest)
  {
    WordsOfSpaced(w, rest);
    WordsOfWord(w);
  }

  /** Joining words with spaces and splitting again gives the words back. */
  lemma {:induction false} WordsOfJoin(ws: seq<string>)
    requires forall i :: 0 <= i < |ws| ==> IsWord(ws[i])
    ensures Words(Join(ws)) == ws
    decreases |ws|
  {
    if |ws| == 1 {
      WordsOfWord(ws[0]);
    } else if |ws| > 1 {
      WordsOfSpaced(ws[0], Join(ws[1..]));
      WordsOfWord(ws[0]);
      WordsOfJoin(ws[1..]);
    }
  }

  /** A line without newline is read through to what follows it. */
  lemma {:induction false} FirstLineAppend(a: string, b: string)
    requires SingleLine(a)
    ensures FirstLine(a + b) == a + FirstLine(b)
    decreases |a|
  {
    if |a| > 0 {
      assert a == [a[0]] + a[1..];
      assert (a + b)[0] == a[0] && (a + b)[1..] == a[1..] + b;
      FirstLineAppend(a[1..], b);
      AppendAssoc([a[0]], a[1..], FirstLine(b));
    } else {
      assert a + b == b;
    }
  }

  /** Text after the first newline does not reach the first command. */
  lemma {:induction false} FirstLineCut(a: string, b: string)
    requires !SingleLine(a)
    ensures FirstLine(a + b) == FirstLine(a)
    decreases |a|
  {
    assert (a + b)[0] == a[0];
    if a[0] != '\n' {
      assert a == [a[0]] + a[1..];
      assert (a + b)[1..] == a[1..] + b;
      FirstLineCut(a[1..], b);
    }
  }

  /** A one-line piece, a space, and more: the first command reads on. */
  lemma FirstLineSpaced(a: string, b: string)
    requires SingleLine(a)
    ensures FirstLine(Spaced(a, b)) == Spaced(a, FirstLine(b))
  {
    FirstLineAppend(a + " ", b);
  }

  /** A piece holding a newline ends the first command inside it. */
  lemma FirstLineSpacedCut(a: string, b: string)
    requires !SingleLine(a)
    ensures FirstLine(Spaced(a, b)) == FirstLine(a)
  {
    FirstLineCut(a, " ");
    FirstLineCut(a + " ", b);
  }

  /** The first command of `a`, a newline and `b`, where `a` is one line, is `a`. */
  lemma FirstLineBreak(a: string, b: string)
    requires SingleLine(a)
    ensures FirstLine(a + "\n" + b) == a
  {
    assert a + "\n" + b == a + ("\n" + b);
    FirstLineAppend(a, "\n" + b);
  }

  /** Pieces joined by spaces hold no newline exactly when no piece does. */
  lemma {:induction false} JoinSingleLine(ws: seq<string>)
    ensures SingleLine(Join(ws)) <==> forall i :: 0 <= i < |ws| ==> SingleLine(ws[i])
    decreases |ws|
  {
    if |ws| > 1 {
      JoinSingleLine(ws[1..]);
      assert forall i :: 1 <= i < |ws| ==> ws[i] == ws[1..][i - 1];
    }
  }
}
