/** Small building blocks shared by the other modules: an optional value,
    the C++ `int` range, and the character search of `std::string::find`. */
module Basics {

  datatype Option<+T> = None | Some(value: T)

  /** Bounds of a 32-bit C++ `int`. */
  const INT_MIN: int := -0x8000_0000
  const INT_MAX: int := 0x7fff_ffff

  /** `s.find(c, from)`: the first index at or after `from` that holds `c`,
      or `None` for `std::string::npos`. */
  function Find(s: string, c: char, from: nat): (r: Option<nat>)
    ensures r.Some? ==> from <= r.value < |s| && s[r.value] == c
    ensures r.Some? ==> forall j :: from <= j < r.value ==> s[j] != c
    ensures r.None? ==> forall j :: from <= j < |s| ==> s[j] != c
    decreases |s| - from
  {
    if from >= |s| then None
    else if s[from] == c then Some(from)
    else Find(s, c, from + 1)
  }
}
