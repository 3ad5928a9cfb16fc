/** Worked cases of the estimator, from the documented behaviour of the application. */
module Examples {
  import opened Wrappers
  import opened Text
  import opened Words
  import opened Fences
  import opened Estimator

  /** Mixed whitespace between words collapses: four words. */
  lemma MixedWhitespace()
    ensures CountWords("a  b\tc\nd") == 4
  {
    var t1 := "\n" + "d";
    var t2 := "c" + t1;
    var t3 := "\t" + t2;
    var t4 := "b" + t3;
    var t5 := "  " + t4;
    var t6 := "a" + t5;
    RunsOfToken("d"); RunsZeroIff("\n"); RunsAppend("\n", "d");
    RunsOfToken("c"); RunsAppend("c", t1);
    RunsZeroIff("\t"); RunsAppend("\t", t2);
    RunsOfToken("b"); RunsAppend("b", t3);
    RunsZeroIff("  "); RunsAppend("  ", t4);
    RunsOfToken("a"); RunsAppend("a", t5);
    assert t6 == "a  b\tc\nd";
    CountWordsIsRuns(t6);
  }

  /** Empty and blank texts have no words. */
  lemma BlankTexts()
    ensures CountWords("") == 0 && CountWords("   ") == 0
  {
    CountWordsZeroIff("");
    CountWordsZeroIff("   ");
  }

  /** One block with a language tag: the tag, the fences and the newlines next to them go; the block becomes a space. */
  lemma OneTaggedBlock()
    ensures Extract("before " + Fence + ("js" + "\n" + "const x = 1;" + "\n") + Fence + " after") ==
      Extraction("before " + " " + " after", "const x = 1;", 1)
  {
    SingleBlock("before ", "js" + "\n" + "const x = 1;" + "\n", " after");
    JsBlockContent();
  }

  lemma JsBlockContent()
    ensures BlockContent(Fence + ("js" + "\n" + "const x = 1;" + "\n") + Fence) == "const x = 1;"
  {
    TaggedBlock("js", "const x = 1;");
  }

  /** An unterminated fence matches nothing: no block, and the text is the prose unchanged. */
  lemma UnterminatedFence()
    ensures Extract("text ``` no close") == Extraction("text ``` no close", "", 0)
  {
    LoneFence("text ", " no close");
    assert "text " + Fence + " no close" == "text ``` no close";
  }

  /** Empty or blank content is refused. */
  lemma EmptyContentRefused()
    ensures Estimate("", Some(0)) == Failure(EmptyContentMessage)
    ensures Estimate("   ", Some(5)) == Failure(EmptyContentMessage)
  {
    assert AllSpaces("") && AllSpaces("   ");
  }

  /**
   * Two hundred regular words at two hundred a minute take exactly one minute.
   * The word count is taken as given; `CountWordsIsRuns` relates it to a text.
   */
  lemma TwoHundredWords()
    ensures TotalMinutes(200, 0, 0) == 1
  {
    MinutesFormula(200, 0, 0);
  }

  /**
   * One word and five images: 0.3 seconds of reading and 60 seconds of images,
   * which rounds up to two minutes.
   */
  lemma OneWordFiveImages()
    ensures Estimate("x", Some(5)).Success?
    ensures Estimate("x", Some(5)).value.totalWordCount == 1
    ensures Estimate("x", Some(5)).value.totalMinutes == 2
  {
    assert Trim("x") == "x";
    assert Extract("x") == Extraction("x", "", 0) by {
      assert NextMatch("x", 0) == None;
    }
    assert CountWords("x") == 1 by {
      CountWordsIsRuns("x");
      RunsOfToken("x");
    }
    assert CountWords("") == 0 by {
      CountWordsZeroIff("");
    }
    MinutesFormula(1, 0, 5);
  }
}
