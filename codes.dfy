/** The fixed code-to-label tables of the CBS datasets. */
module Codes {
  import opened Sorting

  /** Age brackets of the 'characteristics' dimension, with the Total sentinel. */
  const Characteristics: map<int, string> := map[
    10690 := "15 to 20",
    10700 := "20 to 25",
    10710 := "25 to 30",
    10720 := "30 to 35",
    10730 := "35 to 40",
    10740 := "40 to 45",
    10750 := "45 to 50",
    10760 := "50 to 55",
    10770 := "55 to 60",
    10780 := "60 to 65",
    10790 := "65 to 75",
    10000 := "Total"
  ]

  /** The code of the aggregate over all age brackets. */
  const TotalCode: int := 10000

  /** Industry sectors of the SBI 2008 classification. */
  const Sectors: map<int, string> := map[
    301000 := "Agriculture, forestry and fishing",
    307500 := "Manufacturing",
    346600 := "Energy",
    348000 := "Water and waste management",
    350000 := "Construction",
    354200 := "Wholesale and retail",
    383100 := "Transportation and storage",
    389100 := "Hotel and food service",
    391600 := "Information and communication",
    396300 := "Financial institutions",
    402000 := "Real estate",
    403300 := "Consultancy",
    417400 := "Government",
    419000 := "Education",
    422400 := "Health and social work"
  ]

  /** The keys of `Characteristics` in the order the table lists them,
      which is the order in which Python's dict yields them. */
  const CharacteristicKeys: seq<int> :=
    [10690, 10700, 10710, 10720, 10730, 10740, 10750, 10760, 10770, 10780, 10790, 10000]

  lemma CharacteristicKeysListTheTable()
    ensures forall k :: k in CharacteristicKeys <==> k in Characteristics
    ensures TotalCode in Characteristics
  {
  }

  function Identity(k: int): int
  {
    k
  }

  /** Python's `sorted(characteristics.keys())`: the age codes in ascending order. */
  function SortedCharacteristicKeys(): seq<int>
  {
    SortBy(CharacteristicKeys, Identity)
  }

  /** The age codes sort to the Total sentinel first, then the brackets in table order. */
  lemma SortedCharacteristicCodes()
    ensures SortedCharacteristicKeys() == [TotalCode] + CharacteristicKeys[..11]
    ensures CharacteristicKeys[..11]
         == [10690, 10700, 10710, 10720, 10730, 10740, 10750, 10760, 10770, 10780, 10790]
  {
    var brackets := CharacteristicKeys[..11];
    assert CharacteristicKeys == brackets + [TotalCode];
    assert forall i :: 0 <= i < |brackets| - 1 ==> brackets[i] < brackets[i + 1];
    AscendingSorted(brackets);
    SortedBelowTotal(CharacteristicKeys, brackets);
  }

  /** A sequence that ascends step by step is sorted. */
  lemma {:induction false} AscendingSorted(s: seq<int>)
    requires forall i :: 0 <= i < |s| - 1 ==> s[i] < s[i + 1]
    ensures forall i, j :: 0 <= i < j < |s| ==> s[i] < s[j]
  {
    if |s| > 1 {
      AscendingSorted(s[1..]);
      forall i, j | 0 <= i < j < |s|
        ensures s[i] < s[j]
      {
        if i > 0 {
          assert s[i] == s[1..][i - 1] && s[j] == s[1..][j - 1];
        } else if j > 1 {
          assert s[1] == s[1..][0] && s[j] == s[1..][j - 1];
        }
      }
    }
  }

  /** Sorting sorted codes above Total, followed by Total, puts Total first. */
  lemma SortedBelowTotal(keys: seq<int>, brackets: seq<int>)
    requires keys == brackets + [TotalCode]
    requires forall i, j :: 0 <= i < j < |brackets| ==> brackets[i] < brackets[j]
    requires forall i :: 0 <= i < |brackets| ==> TotalCode < brackets[i]
    ensures SortBy(keys, Identity) == [TotalCode] + brackets
  {
    SortBySmallestLast(brackets, TotalCode, Identity);
  }
}
