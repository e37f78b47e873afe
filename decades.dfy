/** The seven decade buckets both pages navigate, and the bounded
    previous/next navigation over them. */
module Decades {

  // `caption` holds the source's `label` field (`label` is a Dafny keyword).
  datatype Decade = Decade(id: string, caption: string, years: string)

  const Table: seq<Decade> := [
    Decade("1960s", "1960s", "1960-1969"),
    Decade("1970s", "1970s", "1970-1979"),
    Decade("1980s", "1980s", "1980-1989"),
    Decade("1990s", "1990s", "1990-1999"),
    Decade("2000s", "2000s", "2000-2009"),
    Decade("2010s", "2010s", "2010-2019"),
    Decade("2020s", "2020s", "2020-2029")
  ]

  /** The decade both pages start on. */
  const Initial: string := "2020s"

  /** The first index at or after `from` whose id is `id`, or -1. */
  function IndexFrom(id: string, from: nat): (r: int)
    requires from <= |Table|
    ensures r == -1 || from <= r < |Table|
    ensures r >= 0 ==> Table[r].id == id && forall j :: from <= j < r ==> Table[j].id != id
    ensures r == -1 <==> forall j :: from <= j < |Table| ==> Table[j].id != id
    decreases |Table| - from
  {
    if from == |Table| then -1
    else if Table[from].id == id then from
    else IndexFrom(id, from + 1)
  }

  /** The row of the decade table whose id is `id`, or -1 when none is
      (the pages' `findIndex` over the table). */
  function IndexOf(id: string): (r: int)
    ensures -1 <= r < |Table|
    ensures r >= 0 ==> Table[r].id == id && forall j :: 0 <= j < r ==> Table[j].id != id
    ensures r == -1 <==> forall j :: 0 <= j < |Table| ==> Table[j].id != id
  {
    IndexFrom(id, 0)
  }

  predicate IsDecadeId(id: string) {
    IndexOf(id) >= 0
  }

  /** The ids are distinct (their third characters already differ), so each
      id finds its own row; and every id is five characters long. */
  lemma IndexOfId(i: int)
    requires 0 <= i < |Table|
    ensures IndexOf(Table[i].id) == i
    ensures |Table[i].id| == 5
  {
    forall j | 0 <= j < |Table| && j != i ensures Table[j].id != Table[i].id {
      assert Table[j].id[2] != Table[i].id[2];
    }
  }

  /** A decade id is five characters long. */
  lemma DecadeIdLength(id: string)
    requires IsDecadeId(id)
    ensures |id| == 5
  {
    IndexOfId(IndexOf(id));
  }

  /** The index the previous/next navigation of either page moves to: the
      target `idx + delta` when it names a row, otherwise `idx` unchanged. */
  function Navigate(idx: int, delta: int): (r: int)
    ensures 0 <= idx < |Table| ==> 0 <= r < |Table|
    ensures r == idx || r == idx + delta
    ensures r != idx ==> 0 <= r < |Table|
  {
    var target := idx + delta;
    if 0 <= target < |Table| then target else idx
  }

  /** The previous button is disabled on the first decade. */
  predicate PrevDisabled(idx: int) {
    idx == 0
  }

  /** The next button is disabled on the last decade. */
  predicate NextDisabled(idx: int) {
    idx == |Table| - 1
  }

  /** Starting on a valid decade, a step of -1 or +1 is ignored exactly when
      the matching button is disabled; any step that is taken moves by
      exactly `delta`. */
  lemma ButtonsMatchNavigation(idx: int)
    requires 0 <= idx < |Table|
    ensures Navigate(idx, -1) == idx <==> PrevDisabled(idx)
    ensures Navigate(idx, 1) == idx <==> NextDisabled(idx)
    ensures !PrevDisabled(idx) ==> Navigate(idx, -1) == idx - 1
    ensures !NextDisabled(idx) ==> Navigate(idx, 1) == idx + 1
  {
  }

  /** A target within the table is always reached, one outside never. */
  lemma NavigateReachesTarget(idx: int, delta: int)
    requires 0 <= idx < |Table| && delta != 0
    ensures Navigate(idx, delta) == idx + delta <==> 0 <= idx + delta < |Table|
  {
  }
}
