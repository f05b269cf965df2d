/**
 * An abstract directory listing: the names `os.listdir` returns, in its
 * order, each with the answer `os.path.isfile` gives for it.
 */
module Listing {

  datatype Entry = Entry(name: string, isFile: bool)

  /** `[f for f in listdir(d) if isfile(join(d, f)) and keep(f)]` */
  function RegularFilesWhere(listing: seq<Entry>, keep: string -> bool): (r: seq<string>)
    ensures |r| <= |listing|
    ensures forall k :: 0 <= k < |r| ==> keep(r[k])
  {
    if listing == [] then []
    else
      var rest := RegularFilesWhere(listing[1..], keep);
      if listing[0].isFile && keep(listing[0].name) then [listing[0].name] + rest else rest
  }

  /** A name is selected exactly when some regular-file entry carries it and passes the test. */
  lemma {:induction false} SelectedIff(listing: seq<Entry>, keep: string -> bool, x: string)
    ensures x in RegularFilesWhere(listing, keep) <==>
      exists e :: e in listing && e.isFile && keep(e.name) && e.name == x
  {
    if listing != [] {
      SelectedIff(listing[1..], keep, x);
      assert listing == [listing[0]] + listing[1..];
      assert forall e :: e in listing <==> e == listing[0] || e in listing[1..];
    }
  }

  /** Selection keeps the listing order: it distributes over concatenation. */
  lemma {:induction false} SelectAppend(a: seq<Entry>, b: seq<Entry>, keep: string -> bool)
    ensures RegularFilesWhere(a + b, keep) == RegularFilesWhere(a, keep) + RegularFilesWhere(b, keep)
  {
    if a == [] {
      assert a + b == b;
    } else {
      assert (a + b)[1..] == a[1..] + b;
      SelectAppend(a[1..], b, keep);
    }
  }
}
