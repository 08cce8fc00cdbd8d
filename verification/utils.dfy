/**
 * The object-label encoder of the IT-data utilities (`encode_object_base_labels`):
 * each object name such as "car1" or "banana4" is reduced to its base name, the
 * distinct base names are numbered 0..K-1 in ascending string order, and every
 * sample receives the number of its base name.
 */
module Utils {
  import opened PyBuiltins

  datatype Option<+T> = None | Some(value: T)

  datatype Result<+T, +E> = Success(value: T) | Failure(error: E)

  /**
   * The encoder's only failure: `re.match` finds no leading letter in the object
   * name at `index` (the first such position), and `.group()` is then called on None.
   */
  datatype EncodeError = NoMatch(index: nat)

  /** What the encoder returns: `label_dict` and `object_labels`. */
  datatype Encoding = Encoding(labelDict: map<string, int>, objectLabels: seq<int>)

  /** A character of the regex class `[a-zA-Z]` (ASCII letters only, case-sensitive). */
  predicate IsAsciiLetter(c: char) {
    'a' <= c <= 'z' || 'A' <= c <= 'Z'
  }

  /** `r` is the longest run of ASCII letters at the start of `s`. */
  ghost predicate IsLeadingLetterRun(r: string, s: string) {
    && |r| <= |s|
    && r == s[..|r|]
    && (forall i :: 0 <= i < |r| ==> IsAsciiLetter(r[i]))
    && (|r| == |s| || !IsAsciiLetter(s[|r|]))
  }

  /** The greedy match of `[a-zA-Z]*` anchored at the start of `s`. */
  function LeadingLetters(s: string): (r: string)
    ensures IsLeadingLetterRun(r, s)
  {
    if s != [] && IsAsciiLetter(s[0]) then
      var t := LeadingLetters(s[1..]);
      assert s == [s[0]] + s[1..];
      [s[0]] + t
    else []
  }

  /** The leading-letter run of a string is unique: the contract of LeadingLetters pins its result. */
  lemma LeadingLetterRunUnique(r1: string, r2: string, s: string)
    requires IsLeadingLetterRun(r1, s) && IsLeadingLetterRun(r2, s)
    ensures r1 == r2
  {
  }

  /**
   * `re.match(r'[a-zA-Z]+', obj).group()`: the base name of `obj`, or None when the
   * match fails because `obj` is empty or does not start with an ASCII letter.
   */
  function BaseName(obj: string): (r: Option<string>)
    ensures r.None? <==> obj == [] || !IsAsciiLetter(obj[0])
    ensures r.Some? ==> r.value != [] && IsLeadingLetterRun(r.value, obj)
  {
    var run := LeadingLetters(obj);
    if run == [] then None else Some(run)
  }

  /**
   * The list comprehension building `base_names`: one base name per object, in
   * order, or the position of the first object without one.
   */
  function BaseNames(objects: seq<string>): (r: Result<seq<string>, EncodeError>)
    ensures r.Success? <==> forall i :: 0 <= i < |objects| ==> BaseName(objects[i]).Some?
    ensures r.Success? ==>
      && |r.value| == |objects|
      && forall i :: 0 <= i < |objects| ==> BaseName(objects[i]) == Some(r.value[i])
    ensures r.Failure? ==>
      && r.error.index < |objects|
      && BaseName(objects[r.error.index]).None?
      && forall i :: 0 <= i < r.error.index ==> BaseName(objects[i]).Some?
  {
    if objects == [] then Success([])
    else match BaseName(objects[0])
      case None => Failure(NoMatch(0))
      case Some(b) =>
        match BaseNames(objects[1..])
        case Failure(e) => Failure(NoMatch(e.index + 1))
        case Success(bs) => Success([b] + bs)
  }

  /** `{base: idx for idx, base in enumerate(unique_bases)}`. */
  function LabelDict(uniqueBases: seq<string>): (d: map<string, int>)
    requires StrictlySorted(uniqueBases)
    ensures d.Keys == Elems(uniqueBases)
    ensures forall i :: 0 <= i < |uniqueBases| ==> uniqueBases[i] in d && d[uniqueBases[i]] == i
  {
    StrictlySortedDistinct(uniqueBases);
    map i | 0 <= i < |uniqueBases| :: uniqueBases[i] := i
  }

  /** `[label_dict[base] for base in base_names]`. */
  function ObjectLabels(baseNames: seq<string>, labelDict: map<string, int>): (labels: seq<int>)
    requires forall i :: 0 <= i < |baseNames| ==> baseNames[i] in labelDict
    ensures |labels| == |baseNames|
    ensures forall i :: 0 <= i < |baseNames| ==> labels[i] == labelDict[baseNames[i]]
  {
    seq(|baseNames|, i requires 0 <= i < |baseNames| => labelDict[baseNames[i]])
  }

  /** `encode_object_base_labels(objects_train)`. */
  function EncodeObjectBaseLabels(objects: seq<string>): (r: Result<Encoding, EncodeError>)
    ensures r.Success? <==> forall i :: 0 <= i < |objects| ==> BaseName(objects[i]).Some?
    ensures r.Failure? ==>
      && r.error.index < |objects|
      && BaseName(objects[r.error.index]).None?
      && forall i :: 0 <= i < r.error.index ==> BaseName(objects[i]).Some?
  {
    match BaseNames(objects)
    case Failure(e) => Failure(e)
    case Success(baseNames) =>
      var uniqueBases := SortedSet(baseNames);
      var labelDict := LabelDict(uniqueBases);
      assert forall i :: 0 <= i < |baseNames| ==> baseNames[i] in Elems(uniqueBases);
      Success(Encoding(labelDict, ObjectLabels(baseNames, labelDict)))
  }

  /** `base` is the base name of some object in `objects`. */
  ghost predicate OccursAsBase(base: string, objects: seq<string>) {
    exists i :: 0 <= i < |objects| && BaseName(objects[i]) == Some(base)
  }

  /** Unfolds a successful encoding into the sorted distinct base names it numbers. */
  lemma EncodingUnfold(objects: seq<string>) returns (bs: seq<string>, u: seq<string>)
    requires EncodeObjectBaseLabels(objects).Success?
    ensures BaseNames(objects) == Success(bs)
    ensures u == SortedSet(bs)
    ensures EncodeObjectBaseLabels(objects).value.labelDict == LabelDict(u)
    ensures EncodeObjectBaseLabels(objects).value.objectLabels == ObjectLabels(bs, LabelDict(u))
  {
    bs := BaseNames(objects).value;
    u := SortedSet(bs);
  }

  /** The keys of `label_dict` are exactly the base names occurring in the input. */
  lemma LabelDictKeys(objects: seq<string>)
    requires EncodeObjectBaseLabels(objects).Success?
    ensures forall b ::
      b in EncodeObjectBaseLabels(objects).value.labelDict <==> OccursAsBase(b, objects)
  {
    var bs, u := EncodingUnfold(objects);
    forall b
      ensures b in Elems(bs) <==> OccursAsBase(b, objects)
    {
      if b in Elems(bs) {
        var i :| 0 <= i < |bs| && bs[i] == b;
        assert BaseName(objects[i]) == Some(b);
      }
      if OccursAsBase(b, objects) {
        var i :| 0 <= i < |objects| && BaseName(objects[i]) == Some(b);
        assert bs[i] == b;
      }
    }
  }

  /** Every key of `label_dict` sits at its own code in the sorted distinct base names. */
  lemma LabelDictInverse(objects: seq<string>) returns (u: seq<string>)
    requires EncodeObjectBaseLabels(objects).Success?
    ensures var d := EncodeObjectBaseLabels(objects).value.labelDict;
      && StrictlySorted(u)
      && |u| == |d|
      && (forall i :: 0 <= i < |u| ==> u[i] in d && d[u[i]] == i)
      && (forall b :: b in d ==> 0 <= d[b] < |u| && u[d[b]] == b)
  {
    var bs;
    bs, u := EncodingUnfold(objects);
    var d := LabelDict(u);
    StrictlySortedCard(u);
    assert d.Keys == Elems(u);
    forall b | b in d
      ensures 0 <= d[b] < |u| && u[d[b]] == b
    {
      var i :| 0 <= i < |u| && u[i] == b;
    }
  }

  /** The codes are exactly 0..K-1, where K is the number of distinct base names. */
  lemma LabelDictDense(objects: seq<string>)
    requires EncodeObjectBaseLabels(objects).Success?
    ensures var d := EncodeObjectBaseLabels(objects).value.labelDict;
      && (forall v :: v in d.Values ==> 0 <= v < |d|)
      && (forall k :: 0 <= k < |d| ==> k in d.Values)
  {
    var u := LabelDictInverse(objects);
    var d := EncodeObjectBaseLabels(objects).value.labelDict;
    forall k | 0 <= k < |d|
      ensures k in d.Values
    {
      assert d[u[k]] == k;
    }
  }

  /** Distinct base names receive distinct codes. */
  lemma LabelDictInjective(objects: seq<string>)
    requires EncodeObjectBaseLabels(objects).Success?
    ensures var d := EncodeObjectBaseLabels(objects).value.labelDict;
      forall a, b :: a in d && b in d && d[a] == d[b] ==> a == b
  {
    var u := LabelDictInverse(objects);
  }

  /** Codes follow Python's string order: `a < b` exactly when `label_dict[a] < label_dict[b]`. */
  lemma LabelDictOrder(objects: seq<string>)
    requires EncodeObjectBaseLabels(objects).Success?
    ensures var d := EncodeObjectBaseLabels(objects).value.labelDict;
      forall a, b :: a in d && b in d ==> (Less(a, b) <==> d[a] < d[b])
  {
    var u := LabelDictInverse(objects);
    var d := EncodeObjectBaseLabels(objects).value.labelDict;
    forall a, b | a in d && b in d
      ensures Less(a, b) <==> d[a] < d[b]
    {
      if d[a] < d[b] {
        assert Less(u[d[a]], u[d[b]]);
      } else if d[a] == d[b] {
        LessIrreflexive(a);
      } else {
        assert Less(u[d[b]], u[d[a]]);
        LessAsymmetric(b, a);
      }
    }
  }

  /**
   * `object_labels` has one entry per input object: the code of that object's
   * base name, which lies in 0..K-1.
   */
  lemma ObjectLabelsPerSample(objects: seq<string>)
    requires EncodeObjectBaseLabels(objects).Success?
    ensures var e := EncodeObjectBaseLabels(objects).value;
      && |e.objectLabels| == |objects|
      && forall i :: 0 <= i < |objects| ==>
        && BaseName(objects[i]).Some?
        && BaseName(objects[i]).value in e.labelDict
        && e.objectLabels[i] == e.labelDict[BaseName(objects[i]).value]
        && 0 <= e.objectLabels[i] < |e.labelDict|
  {
    var bs, u := EncodingUnfold(objects);
    var u' := LabelDictInverse(objects);
  }

  /** Two samples share a label exactly when their base names are equal. */
  lemma SameLabelIffSameBase(objects: seq<string>, i: nat, j: nat)
    requires EncodeObjectBaseLabels(objects).Success?
    requires i < |objects| && j < |objects|
    ensures var labels := EncodeObjectBaseLabels(objects).value.objectLabels;
      labels[i] == labels[j] <==> BaseName(objects[i]) == BaseName(objects[j])
  {
    ObjectLabelsPerSample(objects);
    LabelDictInjective(objects);
  }

  /**
   * The encoding depends only on which base names occur, not on their order or
   * multiplicity: two inputs with the same base names get the same `label_dict`.
   */
  lemma LabelDictDependsOnlyOnBases(objects1: seq<string>, objects2: seq<string>)
    requires EncodeObjectBaseLabels(objects1).Success? && EncodeObjectBaseLabels(objects2).Success?
    requires forall b :: OccursAsBase(b, objects1) <==> OccursAsBase(b, objects2)
    ensures EncodeObjectBaseLabels(objects1).value.labelDict == EncodeObjectBaseLabels(objects2).value.labelDict
  {
    var bs1, u1 := EncodingUnfold(objects1);
    var bs2, u2 := EncodingUnfold(objects2);
    LabelDictKeys(objects1);
    LabelDictKeys(objects2);
    assert Elems(u1) == Elems(u2) by {
      assert LabelDict(u1).Keys == LabelDict(u2).Keys;
    }
    StrictlySortedUnique(u1, u2);
  }

  /** A worked example extending the docstring's 'car1', 'car2' → 'car': `["car1", "car2", "dog1"]` gives `{"car": 0, "dog": 1}` and `[0, 0, 1]`. */
  lemma ExampleCarDog()
    ensures EncodeObjectBaseLabels(["car1", "car2", "dog1"])
      == Success(Encoding(map["car" := 0, "dog" := 1], [0, 0, 1]))
  {
    var objects := ["car1", "car2", "dog1"];
    ExampleBaseNames();
    ExampleSortedBases();
    ExampleLabelDict();
    ExampleObjectLabels();
    var bs, u := EncodingUnfold(objects);
    var e := EncodeObjectBaseLabels(objects).value;
    assert e.labelDict == map["car" := 0, "dog" := 1];
    assert e.objectLabels == [0, 0, 1];
  }

  lemma ExampleObjectLabels()
    ensures ObjectLabels(["car", "car", "dog"], map["car" := 0, "dog" := 1]) == [0, 0, 1]
  {
    var labels := ObjectLabels(["car", "car", "dog"], map["car" := 0, "dog" := 1]);
    assert labels[0] == 0 && labels[1] == 0 && labels[2] == 1;
  }

  lemma ExampleLabelDict()
    ensures LabelDict(["car", "dog"]) == map["car" := 0, "dog" := 1]
  {
    var u := ["car", "dog"];
    assert Less("car", "dog");
    var d := LabelDict(u);
    assert u[0] == "car" && u[1] == "dog";
    assert "car" in d && d["car"] == 0;
    assert "dog" in d && d["dog"] == 1;
    assert Elems(u) == {"car", "dog"};
    assert d.Keys == {"car", "dog"};
  }

  lemma ExampleBaseNames()
    ensures BaseNames(["car1", "car2", "dog1"]) == Success(["car", "car", "dog"])
  {
    var objects := ["car1", "car2", "dog1"];
    BaseNameOfLettersThenRest("car", "1");
    assert "car1" == "car" + "1";
    BaseNameOfLettersThenRest("car", "2");
    assert "car2" == "car" + "2";
    BaseNameOfLettersThenRest("dog", "1");
    assert "dog1" == "dog" + "1";
    assert objects[0] == "car1" && objects[1] == "car2" && objects[2] == "dog1";
    var bs := BaseNames(objects).value;
    assert bs[0] == "car" && bs[1] == "car" && bs[2] == "dog";
    assert bs == ["car", "car", "dog"];
  }

  lemma ExampleSortedBases()
    ensures SortedSet(["car", "car", "dog"]) == ["car", "dog"]
  {
    assert Less("car", "dog");
    assert Elems(["car", "car", "dog"]) == {"car", "dog"} == Elems(["car", "dog"]);
    assert StrictlySorted(["car", "dog"]);
    StrictlySortedUnique(SortedSet(["car", "car", "dog"]), ["car", "dog"]);
  }

  /** A character of the "digits" named in the comment at the regex. */
  predicate IsDigit(c: char) {
    '0' <= c <= '9'
  }

  /** What the comment at the regex describes instead ("strip digits from end"): the object name with its trailing digits removed. */
  function StripTrailingDigits(s: string): (r: string)
    ensures |r| <= |s| && r == s[..|r|]
    ensures r == [] || !IsDigit(r[|r| - 1])
    ensures forall i :: |r| <= i < |s| ==> IsDigit(s[i])
  {
    if s != [] && IsDigit(s[|s| - 1]) then StripTrailingDigits(s[..|s| - 1]) else s
  }

  /** A name made of a letter run followed by anything not starting with a letter has that run as its base. */
  lemma BaseNameOfLettersThenRest(letters: string, rest: string)
    requires letters != [] && forall i :: 0 <= i < |letters| ==> IsAsciiLetter(letters[i])
    requires rest == [] || !IsAsciiLetter(rest[0])
    ensures BaseName(letters + rest) == Some(letters)
  {
    var s := letters + rest;
    assert IsLeadingLetterRun(letters, s);
    LeadingLetterRunUnique(LeadingLetters(s), letters, s);
  }

  /** On names of the shape the docstring shows, letters then digits, the code and the comment at the regex agree. */
  lemma BaseNameMatchesComment(letters: string, digits: string)
    requires letters != [] && forall i :: 0 <= i < |letters| ==> IsAsciiLetter(letters[i])
    requires forall i :: 0 <= i < |digits| ==> IsDigit(digits[i])
    ensures BaseName(letters + digits) == Some(letters)
    ensures StripTrailingDigits(letters + digits) == letters
  {
    BaseNameOfLettersThenRest(letters, digits);
    StripDigitsAfterLetters(letters, digits);
  }

  lemma {:induction false} StripDigitsAfterLetters(letters: string, digits: string)
    requires letters != [] && !IsDigit(letters[|letters| - 1])
    requires forall i :: 0 <= i < |digits| ==> IsDigit(digits[i])
    ensures StripTrailingDigits(letters + digits) == letters
  {
    if digits == [] {
      assert letters + digits == letters;
    } else {
      var shorter := digits[..|digits| - 1];
      assert (letters + digits)[..|letters + digits| - 1] == letters + shorter;
      StripDigitsAfterLetters(letters, shorter);
    }
  }

  /** Elsewhere they part: the code keeps the leading letters only. */
  lemma BaseNameDiffersFromComment()
    ensures BaseName("car_2") == Some("car") && StripTrailingDigits("car_2") == "car_"
    ensures BaseName("a1b") == Some("a") && StripTrailingDigits("a1b") == "a1b"
    ensures BaseName("Car3") == Some("Car") && BaseName("Car3") != BaseName("car3")
    ensures Less("Car", "car") && !Less("car", "Car")
    ensures BaseName("") == None && BaseName("1car") == None && BaseName("_car") == None
  {
    BaseNameOfLettersThenRest("car", "_2");
    assert "car_2" == "car" + "_2";
    BaseNameOfLettersThenRest("a", "1b");
    assert "a1b" == "a" + "1b";
    BaseNameOfLettersThenRest("Car", "3");
    assert "Car3" == "Car" + "3";
    BaseNameOfLettersThenRest("car", "3");
    assert "car3" == "car" + "3";
  }
}
