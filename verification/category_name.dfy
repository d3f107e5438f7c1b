/** formatCategoryName: the label the detail panel shows for a category
    identifier such as "noble-gas". */
module CategoryName {
  import opened JsString

  /** word.charAt(0).toUpperCase() + word.slice(1) */
  function Capitalize(word: string): (r: string)
    ensures |r| == |word|
    ensures |word| > 0 ==> r[0] == ToUpperChar(word[0]) && r[1..] == word[1..]
  {
    if |word| == 0 then word else [ToUpperChar(word[0])] + word[1..]
  }

  function CapitalizeAll(words: seq<string>): seq<string>
  {
    seq(|words|, i requires 0 <= i < |words| => Capitalize(words[i]))
  }

  /** Capitalising every piece keeps the total length. */
  lemma {:induction false} CapitalizeAllLength(words: seq<string>)
    ensures |CapitalizeAll(words)| == |words|
    ensures TotalLength(CapitalizeAll(words)) == TotalLength(words)
    decreases |words|
  {
    if |words| > 0 {
      CapitalizeAllLength(words[1..]);
      assert CapitalizeAll(words)[1..] == CapitalizeAll(words[1..]);
    }
  }

  /** category.split('-').map(capitalize).join(' '): a label as long as
      the category (each hyphen gives way to one space). */
  function FormatCategoryName(category: string): (r: string)
    ensures |r| == |category|
  {
    var parts := Split(category, '-');
    CapitalizeAllLength(parts);
    JoinSplit(category, '-');
    Join(CapitalizeAll(parts), " ")
  }

  /** The character the formatted label holds at index i of the category:
      a space for a hyphen, the upper-case letter at the start of a piece,
      the character itself anywhere else. */
  function LabelCharAt(category: string, i: nat): char
    requires i < |category|
  {
    if category[i] == '-' then ' '
    else if i == 0 || category[i - 1] == '-' then ToUpperChar(category[i])
    else category[i]
  }

  /** One step of the split: the first piece, capitalised, a space, and the
      label of the rest. */
  lemma FormatUnfold(category: string)
    ensures '-' !in category ==> FormatCategoryName(category) == Capitalize(category)
    ensures '-' in category ==>
      var k := IndexOf(category, '-');
      FormatCategoryName(category) == Capitalize(category[..k]) + " " + FormatCategoryName(category[k + 1..])
  {
    if '-' in category {
      var k := IndexOf(category, '-');
      var parts := Split(category, '-');
      var rest := Split(category[k + 1..], '-');
      assert parts == [category[..k]] + rest;
      assert CapitalizeAll(parts) == [Capitalize(category[..k])] + CapitalizeAll(rest);
      assert CapitalizeAll(parts)[1..] == CapitalizeAll(rest);
    }
  }

  /** The label is the category with every hyphen turned into a space and
      the first character of every piece upper-cased; nothing else changes. */
  lemma {:induction false} FormatCategoryNameIsPointwise(category: string)
    ensures |FormatCategoryName(category)| == |category|
    ensures forall i :: 0 <= i < |category| ==> FormatCategoryName(category)[i] == LabelCharAt(category, i)
    decreases |category|
  {
    FormatUnfold(category);
    var r := FormatCategoryName(category);
    if '-' !in category {
      forall i | 0 <= i < |category| ensures r[i] == LabelCharAt(category, i) {
        assert category[i] != '-';
        assert i > 0 ==> category[i - 1] != '-';
      }
    } else {
      var k := IndexOf(category, '-');
      var tail := category[k + 1..];
      FormatCategoryNameIsPointwise(tail);
      var head := Capitalize(category[..k]);
      assert r == head + " " + FormatCategoryName(tail);
      forall i | 0 <= i < |category| ensures r[i] == LabelCharAt(category, i) {
        if i < k {
          assert category[..k][i] == category[i];
          assert i > 0 ==> category[..k][i - 1] == category[i - 1];
        } else if i > k {
          assert r[i] == FormatCategoryName(tail)[i - k - 1];
          assert tail[i - k - 1] == category[i];
          assert i - k - 1 > 0 ==> tail[i - k - 2] == category[i - 1];
        }
      }
    }
  }

  lemma ToUpperCharIsSpace(c: char)
    ensures ToUpperChar(c) == ' ' <==> c == ' '
  {
  }

  /** The properties of the label, one by one, for a category without
      spaces (the identifiers the page uses): same length, a space exactly
      where the category has a hyphen, the first character of each piece
      upper-cased, and every other character kept. */
  lemma FormatCategoryNameProperties(category: string)
    requires ' ' !in category
    ensures |FormatCategoryName(category)| == |category|
    ensures forall i :: 0 <= i < |category| ==> (FormatCategoryName(category)[i] == ' ' <==> category[i] == '-')
    ensures forall i :: 0 <= i < |category| && category[i] != '-' && (i == 0 || category[i - 1] == '-') ==>
              FormatCategoryName(category)[i] == ToUpperChar(category[i])
    ensures forall i :: 0 < i < |category| && category[i] != '-' && category[i - 1] != '-' ==>
              FormatCategoryName(category)[i] == category[i]
  {
    FormatCategoryNameIsPointwise(category);
    forall i | 0 <= i < |category|
      ensures FormatCategoryName(category)[i] == ' ' <==> category[i] == '-'
    {
      ToUpperCharIsSpace(category[i]);
      assert category[i] != ' ';
    }
  }

  /** The example the page shows: "noble-gas" reads "Noble Gas". */
  lemma NobleGasLabel(category: string)
    requires category == "noble-gas"
    ensures FormatCategoryName(category) == "Noble Gas"
  {
    var gas := category[6..];
    assert category[5] == '-' && category[..5] == "noble" && gas == "gas";
    IndexOfIs(category, '-', 5);
    FormatUnfold(category);
    FormatUnfold(gas);
  }
}
