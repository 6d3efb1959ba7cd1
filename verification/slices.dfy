/** Removing and inserting one element of a slice (helpertools/RandomTools.go:38-75), on values. */
module Slices {

  /** An index outside the slice leaves it as it is. */
  function RemoveElementAtIndex<T>(slice: seq<T>, index: int): (r: seq<T>)
    ensures 0 <= index < |slice| ==> r == slice[..index] + slice[index + 1..]
    ensures index < 0 || index >= |slice| ==> r == slice
  {
    if index < 0 || index >= |slice| then slice
    else if |slice| - 1 == index then slice[..index]
    else if index == 0 then slice[1..]
    else slice[..index] + slice[index + 1..]
  }

  /** An index beyond the end appends, a negative one does nothing. */
  function InsertElementAtIndex<T>(slice: seq<T>, index: int, element: T): (r: seq<T>)
    ensures 0 <= index <= |slice| ==> r == slice[..index] + [element] + slice[index..]
    ensures index < 0 ==> r == slice
    ensures index > |slice| ==> r == slice + [element]
  {
    if index < 0 then slice
    else if index > |slice| then slice + [element]
    else if |slice| == index then slice + [element]
    else if index == 0 then [element] + slice
    else
      var longer := slice + [element];
      longer[..index] + [element] + longer[index..|slice|]
  }
}
