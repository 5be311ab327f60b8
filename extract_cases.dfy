module ExtractExamples {
  import opened Text
  import opened Extract

  const Doc := "### Flag\nABC\n### Solution\nDEF"

  lemma DocFlagLeftmost()
    ensures LeftmostMatch(Doc, "Flag", 0, Split(1, 0, 1, 3))
  {
    var s := Doc;
    var m := Split(1, 0, 1, 3);
    DocFlagMatch();
    forall m' | IsMatch(s, "Flag", 0, m')
      ensures !Prior(m', m)
    {
      DocFlagHeading(m');
      DocFlagBody(m');
    }
  }

  lemma DocFlagMatch()
    ensures IsMatch(Doc, "Flag", 0, Split(1, 0, 1, 3))
  {
    DocFlagLabel();
    DocFlagStop();
  }

  lemma DocFlagLabel()
    ensures AllSpaceIn(Doc, 3, 4) && LabelAt(Doc, 4, "Flag")
  {
  }

  lemma DocFlagStop()
    ensures AllNewlineIn(Doc, 8, 9) && IsStop(Doc, 12)
  {
  }

  lemma DocFlagHeading(m: Split)
    requires IsMatch(Doc, "Flag", 0, m)
    ensures m.ws1 == 1 && m.ws2 == 0
  {
    assert !IsSpace(Doc[4]) && !IsSpace(Doc[9]);
  }

  lemma DocFlagBody(m: Split)
    requires IsMatch(Doc, "Flag", 0, m) && m.ws1 == 1 && m.ws2 == 0
    ensures m.nl == 1 && m.cap >= 3
  {
    assert Doc[9] != '\n';
    assert !IsStop(Doc, 9) && !IsStop(Doc, 10) && !IsStop(Doc, 11);
  }

  lemma DocFlagCapture()
    ensures Capture(Doc, "Flag", 0, Split(1, 0, 1, 3)) == "ABC"
  {
    assert Doc[9] == 'A' && Doc[10] == 'B' && Doc[11] == 'C';
    var c := Doc[9..12];
    assert c[0] == 'A' && c[1] == 'B' && c[2] == 'C';
    assert c == "ABC";
  }


  lemma DocFlag()
    ensures ExtractField(Doc, "Flag") == "ABC"
  {
    TrimUnchanged("ABC");
    DocFlagLeftmost();
    ExtractFieldLeftmost(Doc, "Flag", 0, Split(1, 0, 1, 3));
    DocFlagCapture();
  }

  /** An empty Flag section: the capture swallows the following heading. */
  const EmptyFlagDoc := "### Flag\n\n### Solution\nDEF"

  lemma EmptyFlagHeading(m: Split)
    requires IsMatch(EmptyFlagDoc, "Flag", 0, m)
    ensures m.ws1 == 1 && m.ws2 <= 1
  {
    assert !IsSpace(EmptyFlagDoc[4]) && !IsSpace(EmptyFlagDoc[10]);
  }

  lemma EmptyFlagBody(m: Split)
    requires IsMatch(EmptyFlagDoc, "Flag", 0, m) && m.ws1 == 1 && m.ws2 == 1
    ensures m.nl == 1 && m.cap == 16
  {
    var s := EmptyFlagDoc;
    assert s[10] == '#';
    assert forall i :: 10 <= i < 26 && i != 22 ==> s[i] != '\n';
    assert !IsStop(s, 22);
  }

  lemma EmptyFlagMatch()
    ensures IsMatch(EmptyFlagDoc, "Flag", 0, Split(1, 1, 1, 16))
  {
    EmptyFlagLabel();
  }

  lemma EmptyFlagLabel()
    ensures AllSpaceIn(EmptyFlagDoc, 3, 4) && LabelAt(EmptyFlagDoc, 4, "Flag")
    ensures AllSpaceIn(EmptyFlagDoc, 8, 9) && AllNewlineIn(EmptyFlagDoc, 9, 10)
  {
  }

  lemma EmptyFlagLeftmost()
    ensures LeftmostMatch(EmptyFlagDoc, "Flag", 0, Split(1, 1, 1, 16))
  {
    var s := EmptyFlagDoc;
    var m := Split(1, 1, 1, 16);
    EmptyFlagMatch();
    forall m' | IsMatch(s, "Flag", 0, m')
      ensures !Prior(m', m)
    {
      EmptyFlagHeading(m');
      if m'.ws2 == 1 {
        EmptyFlagBody(m');
      }
    }
  }

  lemma EmptyFlagCapture()
    ensures Capture(EmptyFlagDoc, "Flag", 0, Split(1, 1, 1, 16)) == "### Solution\nDEF"
  {
    var c := EmptyFlagDoc[10..26];
    var e := "### Solution\nDEF";
    assert forall k :: 0 <= k < 16 ==> c[k] == e[k];
  }


  lemma EmptyFlag()
    ensures ExtractField(EmptyFlagDoc, "Flag") == "### Solution\nDEF"
  {
    TrimUnchanged("### Solution\nDEF");
    EmptyFlagLeftmost();
    ExtractFieldLeftmost(EmptyFlagDoc, "Flag", 0, Split(1, 1, 1, 16));
    EmptyFlagCapture();
  }

  /** A level-four heading: the regex is not anchored, so it matches at offset 1. */
  const DeepHeadingDoc := "#### Flag\nX"

  lemma DeepHeadingLeftmost()
    ensures LeftmostMatch(DeepHeadingDoc, "Flag", 1, Split(1, 0, 1, 1))
  {
    var s := DeepHeadingDoc;
    var m := Split(1, 0, 1, 1);
    DeepHeadingMatch();
    forall m' | IsMatch(s, "Flag", 1, m')
      ensures !Prior(m', m)
    {
      DeepHeadingFirst(m');
    }
    forall m' ensures !IsMatch(s, "Flag", 0, m') {
      assert !IsSpace(s[3]);
    }
  }

  lemma DeepHeadingMatch()
    ensures IsMatch(DeepHeadingDoc, "Flag", 1, Split(1, 0, 1, 1))
  {
    DeepHeadingLabel();
  }

  lemma DeepHeadingLabel()
    ensures AllSpaceIn(DeepHeadingDoc, 4, 5) && LabelAt(DeepHeadingDoc, 5, "Flag")
    ensures AllNewlineIn(DeepHeadingDoc, 9, 10)
  {
  }

  lemma DeepHeadingFirst(m: Split)
    requires IsMatch(DeepHeadingDoc, "Flag", 1, m)
    ensures !Prior(m, Split(1, 0, 1, 1))
  {
    assert !IsSpace(DeepHeadingDoc[5]) && !IsSpace(DeepHeadingDoc[10]);
    assert !IsStop(DeepHeadingDoc, 10);
  }

  lemma DeepHeading()
    ensures ExtractField(DeepHeadingDoc, "Flag") == "X"
  {
    var m := Split(1, 0, 1, 1);
    DeepHeadingLeftmost();
    ExtractFieldLeftmost(DeepHeadingDoc, "Flag", 1, m);
    assert Capture(DeepHeadingDoc, "Flag", 1, m) == DeepHeadingDoc[10..11];
    assert DeepHeadingDoc[10..11] == "X";
    TrimUnchanged("X");
  }

  /** The `\s+` after `###` may be a newline: the label can sit on the next line. */
  const NewlineHeadingDoc := "###\nFlag\nX"

  lemma NewlineHeadingLeftmost()
    ensures LeftmostMatch(NewlineHeadingDoc, "Flag", 0, Split(1, 0, 1, 1))
  {
    NewlineHeadingMatch();
    forall m' | IsMatch(NewlineHeadingDoc, "Flag", 0, m')
      ensures !Prior(m', Split(1, 0, 1, 1))
    {
      NewlineHeadingFirst(m');
    }
  }

  lemma NewlineHeadingMatch()
    ensures IsMatch(NewlineHeadingDoc, "Flag", 0, Split(1, 0, 1, 1))
  {
    NewlineHeadingLabel();
  }

  lemma NewlineHeadingLabel()
    ensures AllSpaceIn(NewlineHeadingDoc, 3, 4) && LabelAt(NewlineHeadingDoc, 4, "Flag")
    ensures AllNewlineIn(NewlineHeadingDoc, 8, 9)
  {
  }

  lemma NewlineHeadingFirst(m: Split)
    requires IsMatch(NewlineHeadingDoc, "Flag", 0, m)
    ensures !Prior(m, Split(1, 0, 1, 1))
  {
    assert !IsSpace(NewlineHeadingDoc[4]) && !IsSpace(NewlineHeadingDoc[9]);
    assert !IsStop(NewlineHeadingDoc, 9);
  }

  lemma NewlineHeading()
    ensures ExtractField(NewlineHeadingDoc, "Flag") == "X"
  {
    var m := Split(1, 0, 1, 1);
    NewlineHeadingLeftmost();
    ExtractFieldLeftmost(NewlineHeadingDoc, "Flag", 0, m);
    assert Capture(NewlineHeadingDoc, "Flag", 0, m) == NewlineHeadingDoc[9..10];
    assert NewlineHeadingDoc[9..10] == "X";
    TrimUnchanged("X");
  }

  /** The second section of `Doc` is found past the first heading and runs to the end. */
  lemma DocSolutionNotEarlier(p: nat, m: Split)
    requires p < 13
    ensures !IsMatch(Doc, "Solution", p, m)
  {
    if p == 0 {
      assert !IsSpace(Doc[4]);
      assert !SameLetter(Doc[4], "Solution"[0]);
    } else {
      assert Doc[p] != '#' || Doc[p + 1] != '#' || Doc[p + 2] != '#' by {
        assert Doc[3] == ' ';
        assert forall i :: 4 <= i < 13 ==> Doc[i] != '#';
      }
    }
  }

  lemma DocSolutionMatch()
    ensures IsMatch(Doc, "Solution", 13, Split(1, 0, 1, 3))
  {
    DocSolutionLabel();
  }

  lemma DocSolutionLabel()
    ensures AllSpaceIn(Doc, 16, 17) && LabelAt(Doc, 17, "Solution") && AllNewlineIn(Doc, 25, 26)
  {
  }

  lemma DocSolutionFirst(m: Split)
    requires IsMatch(Doc, "Solution", 13, m)
    ensures !Prior(m, Split(1, 0, 1, 3))
  {
    assert !IsSpace(Doc[17]) && !IsSpace(Doc[26]);
    assert !IsStop(Doc, 26) && !IsStop(Doc, 27) && !IsStop(Doc, 28);
  }

  lemma DocSolutionLeftmost()
    ensures LeftmostMatch(Doc, "Solution", 13, Split(1, 0, 1, 3))
  {
    DocSolutionMatch();
    forall m' | IsMatch(Doc, "Solution", 13, m')
      ensures !Prior(m', Split(1, 0, 1, 3))
    {
      DocSolutionFirst(m');
    }
    forall p': nat, m' | p' < 13
      ensures !IsMatch(Doc, "Solution", p', m')
    {
      DocSolutionNotEarlier(p', m');
    }
  }

  lemma DocSolutionCapture()
    ensures Capture(Doc, "Solution", 13, Split(1, 0, 1, 3)) == "DEF"
  {
    var c := Doc[26..29];
    assert c[0] == 'D' && c[1] == 'E' && c[2] == 'F';
    assert c == "DEF";
  }

  lemma DocSolution()
    ensures ExtractField(Doc, "Solution") == "DEF"
  {
    TrimUnchanged("DEF");
    var m := Split(1, 0, 1, 3);
    DocSolutionLeftmost();
    ExtractFieldLeftmost(Doc, "Solution", 13, m);
    DocSolutionCapture();
  }

  /** Labels match regardless of ASCII case. */
  lemma DocLowerCaseFlag()
    ensures ExtractField(Doc, "flag") == "ABC"
  {
    assert SameIgnoringCase("flag", "Flag") by {
      assert SameLetter('f', 'F');
    }
    ExtractFieldIgnoresCase(Doc, "flag", "Flag");
    DocFlag();
  }
}
