/** The behaviour the unit tests pin down, stated on the model. */
module Scenarios {
  import opened Wrappers
  import opened Tokenizer
  import opened Conversion
  import opened IpFilter

  /** A string without the delimiter, the empty one included, is one piece. */
  lemma SplitWithoutDelimiter()
    ensures Pieces("", '.') == [""]
    ensures Pieces("11", '.') == ["11"]
  {
    PiecesNoDelimiter("", '.');
    PiecesNoDelimiter("11", '.');
  }

  lemma SplitTwoParts()
    ensures Pieces("11.22", '.') == ["11", "22"]
  {
    assert Join(["11", "22"], '.') == "11.22";
    PiecesJoin(["11", "22"], '.');
  }

  /** Two delimiters in a row give three empty pieces. */
  lemma SplitOnlyDelimiters()
    ensures Pieces("..", '.') == ["", "", ""]
  {
    assert Join(["", "", ""], '.') == "..";
    PiecesJoin(["", "", ""], '.');
  }

  /** A leading or trailing delimiter gives an empty first or last piece. */
  lemma SplitLeadingTrailing()
    ensures Pieces(".11", '.') == ["", "11"]
    ensures Pieces("11.", '.') == ["11", ""]
  {
    assert Join(["", "11"], '.') == ".11";
    PiecesJoin(["", "11"], '.');
    assert Join(["11", ""], '.') == "11.";
    PiecesJoin(["11", ""], '.');
  }

  lemma RenderScenario()
    ensures Join(["192", "168", "1", "1"], '.') == "192.168.1.1"
  {
  }

  lemma ParseScenario()
    ensures ParseLine("1.2.3.4\tsome_data") == ["1", "2", "3", "4"]
  {
    FirstField();
    DottedQuad();
  }

  lemma FirstField()
    ensures Pieces("1.2.3.4\tsome_data", '\t')[0] == "1.2.3.4"
  {
    var line := "1.2.3.4\tsome_data";
    PiecesAtFirst(line, '\t', 7);
    assert line[..7] == "1.2.3.4";
  }

  lemma DottedQuad()
    ensures Pieces("1.2.3.4", '.') == ["1", "2", "3", "4"]
  {
    assert Join(["1", "2", "3", "4"], '.') == "1.2.3.4";
    PiecesJoin(["1", "2", "3", "4"], '.');
  }

  lemma Digits()
    ensures Stoi("1") == Some(1) && Stoi("2") == Some(2) && Stoi("3") == Some(3)
    ensures Stoi("4") == Some(4) && Stoi("5") == Some(5) && Stoi("6") == Some(6)
    ensures Stoi("7") == Some(7) && Stoi("8") == Some(8) && Stoi("9") == Some(9)
  {
    assert "1"[..0] == "" && "2"[..0] == "" && "3"[..0] == "";
    assert "4"[..0] == "" && "5"[..0] == "" && "6"[..0] == "";
    assert "7"[..0] == "" && "8"[..0] == "" && "9"[..0] == "";
  }

  lemma TwoDigits()
    ensures Stoi("11") == Some(11) && Stoi("12") == Some(12)
    ensures Stoi("46") == Some(46) && Stoi("70") == Some(70) && Stoi("71") == Some(71)
  {
    assert "11"[..1] == "1" && "12"[..1] == "1" && "1"[..0] == "";
    assert "46"[..1] == "4" && "4"[..0] == "";
    assert "70"[..1] == "7" && "71"[..1] == "7" && "7"[..0] == "";
  }

  lemma FirstByteScenario()
    ensures Filtered([["1", "2", "3", "4"], ["2", "1", "1", "1"], ["1", "1", "1", "1"]], FirstByte(1))
            == Success([["1", "2", "3", "4"], ["1", "1", "1", "1"]])
  {
    Digits();
    var pool := [["1", "2", "3", "4"], ["2", "1", "1", "1"], ["1", "1", "1", "1"]];
    var c := FirstByte(1);
    assert Matches(c, pool[0]) == Success(true);
    assert Matches(c, pool[1]) == Success(false);
    assert Matches(c, pool[2]) == Success(true);
    assert pool[..0] == [];
    FilteredStep(pool, c, 0);
    assert [] + [pool[0]] == [pool[0]];
    assert Filtered(pool[..1], c) == Success([pool[0]]);
    FilteredStep(pool, c, 1);
    assert Filtered(pool[..2], c) == Success([pool[0]]);
    FilteredStep(pool, c, 2);
    assert [pool[0]] + [pool[2]] == [pool[0], pool[2]];
    assert pool[..3] == pool;
  }

  lemma FirstTwoBytesScenario()
    ensures Filtered([["46", "70", "1", "1"], ["46", "71", "1", "1"], ["46", "70", "2", "2"]], FirstTwoBytes(46, 70))
            == Success([["46", "70", "1", "1"], ["46", "70", "2", "2"]])
  {
    TwoDigits();
    var pool := [["46", "70", "1", "1"], ["46", "71", "1", "1"], ["46", "70", "2", "2"]];
    var c := FirstTwoBytes(46, 70);
    assert Matches(c, pool[0]) == Success(true);
    assert Matches(c, pool[1]) == Success(false);
    assert Matches(c, pool[2]) == Success(true);
    assert pool[..0] == [];
    FilteredStep(pool, c, 0);
    assert [] + [pool[0]] == [pool[0]];
    assert Filtered(pool[..1], c) == Success([pool[0]]);
    FilteredStep(pool, c, 1);
    assert Filtered(pool[..2], c) == Success([pool[0]]);
    FilteredStep(pool, c, 2);
    assert [pool[0]] + [pool[2]] == [pool[0], pool[2]];
    assert pool[..3] == pool;
  }

  lemma AnyByteScenario()
    ensures Filtered([["1", "2", "3", "4"], ["5", "6", "7", "8"], ["9", "46", "11", "12"]], AnyByte(46))
            == Success([["9", "46", "11", "12"]])
  {
    var pool := [["1", "2", "3", "4"], ["5", "6", "7", "8"], ["9", "46", "11", "12"]];
    var c := AnyByte(46);
    AnyByteTests();
    assert pool[..0] == [];
    FilteredStep(pool, c, 0);
    assert Filtered(pool[..1], c) == Success([]) by { assert pool[..1][..0] == []; }
    FilteredStep(pool, c, 1);
    assert Filtered(pool[..2], c) == Success([]);
    FilteredStep(pool, c, 2);
    assert [] + [pool[2]] == [pool[2]];
    assert pool[..3] == pool;
  }

  lemma AnyByteTests()
    ensures Matches(AnyByte(46), ["1", "2", "3", "4"]) == Success(false)
    ensures Matches(AnyByte(46), ["5", "6", "7", "8"]) == Success(false)
    ensures Matches(AnyByte(46), ["9", "46", "11", "12"]) == Success(true)
  {
    Digits();
    TwoDigits();
    AnyComponentIsFalse(["1", "2", "3", "4"], 46);
    AnyComponentIsFalse(["5", "6", "7", "8"], 46);
    AnyComponentIsTrue(["9", "46", "11", "12"], 46);
    assert Stoi(["9", "46", "11", "12"][1]) == Some(46);
  }

  /** A component that is not a number makes the filter fail instead of skipping the address. */
  lemma ConversionErrorScenario()
    ensures Filtered([["abc", "1", "1", "1"]], FirstByte(1)) == Failure(ConversionError)
    ensures Octets(["abc", "1", "1", "1"]) == Failure(ConversionError)
  {
    assert !IsDigit("abc"[0]);
  }

  /** The three test addresses have one sorted order only: 2.1.1.1, 1.2.3.4, 1.1.1.1. */
  lemma SortScenario(s: IpPool)
    requires multiset(s) == multiset{["1", "2", "3", "4"], ["2", "1", "1", "1"], ["1", "1", "1", "1"]}
    requires SortedByComparator(s)
    ensures s == [["2", "1", "1", "1"], ["1", "2", "3", "4"], ["1", "1", "1", "1"]]
  {
    var a, b, c := ["2", "1", "1", "1"], ["1", "2", "3", "4"], ["1", "1", "1", "1"];
    SortTestComparisons();
    assert |s| == |multiset(s)| == 3;
    assert forall k :: 0 <= k < 3 ==> s[k] in multiset(s);
    assert s[0] in multiset(s) && s[1] in multiset(s) && s[2] in multiset(s);
    assert a in multiset(s) && b in multiset(s) && c in multiset(s);
  }

  /** The comparator on each pair of the three sort-test addresses. */
  lemma SortTestComparisons()
    ensures Comparator(["1", "2", "3", "4"], ["2", "1", "1", "1"]) == Success(false)
    ensures Comparator(["2", "1", "1", "1"], ["1", "2", "3", "4"]) == Success(true)
    ensures Comparator(["1", "1", "1", "1"], ["2", "1", "1", "1"]) == Success(false)
    ensures Comparator(["2", "1", "1", "1"], ["1", "1", "1", "1"]) == Success(true)
    ensures Comparator(["1", "1", "1", "1"], ["1", "2", "3", "4"]) == Success(false)
    ensures Comparator(["1", "2", "3", "4"], ["1", "1", "1", "1"]) == Success(true)
  {
    Digits();
  }
}
