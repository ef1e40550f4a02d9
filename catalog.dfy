/**
 * The book catalogue table and the filtered scan the lookup handler issues
 * against it.  A stored item is a map from attribute names to string values;
 * the scan keeps, in store order, exactly the items whose `Title` attribute
 * is equal (case-sensitively) to the requested title.
 */
module Catalog {

  /** One item of the table: its attributes by name. */
  datatype Record = Record(attributes: map<string, string>) {

    /** The equality filter `Attr('Title').eq(title)`: the item has a `Title` equal to `title`. */
    predicate HasTitle(title: string) {
      "Title" in attributes && attributes["Title"] == title
    }
  }

  /** The name of the attribute the lookup filters on. */
  const TitleAttribute: string := "Title"

  /** The items a scan with the title filter returns: a filter that keeps store order. */
  function Scan(items: seq<Record>, title: string): (r: seq<Record>)
    ensures |r| <= |items|
    ensures forall k :: 0 <= k < |r| ==> r[k] in items && r[k].HasTitle(title)
  {
    if items == [] then []
    else if items[0].HasTitle(title) then [items[0]] + Scan(items[1..], title)
    else Scan(items[1..], title)
  }

  /** `i` is the position of the first item in the table whose title is `title`. */
  ghost predicate IsFirstMatch(items: seq<Record>, title: string, i: int) {
    && 0 <= i < |items|
    && items[i].HasTitle(title)
    && forall j :: 0 <= j < i ==> !items[j].HasTitle(title)
  }

  /** Every stored item with the requested title is in the scan result, and nothing else is. */
  lemma {:induction false} ScanMembership(items: seq<Record>, title: string, x: Record)
    ensures x in Scan(items, title) <==> x in items && x.HasTitle(title)
  {
    if items != [] {
      ScanMembership(items[1..], title, x);
      assert items == [items[0]] + items[1..];
    }
  }

  /** The scan preserves store order: scanning a concatenation concatenates the scans. */
  lemma {:induction false} ScanAppend(a: seq<Record>, b: seq<Record>, title: string)
    ensures Scan(a + b, title) == Scan(a, title) + Scan(b, title)
  {
    if a == [] {
      assert a + b == b;
    } else {
      assert (a + b)[1..] == a[1..] + b;
      ScanAppend(a[1..], b, title);
    }
  }

  /** The scan returns nothing exactly when no stored item has the requested title. */
  lemma {:induction false} ScanEmptyIff(items: seq<Record>, title: string)
    ensures Scan(items, title) == [] <==> forall i :: 0 <= i < |items| ==> !items[i].HasTitle(title)
  {
    if items != [] {
      ScanEmptyIff(items[1..], title);
      if !items[0].HasTitle(title) {
        forall i | 0 <= i < |items| && Scan(items, title) == []
          ensures !items[i].HasTitle(title)
        {
          if i > 0 { assert items[i] == items[1..][i - 1]; }
        }
      }
    }
  }

  /** The first item of a non-empty scan is the first matching item of the table. */
  lemma {:induction false} ScanHeadIsFirstMatch(items: seq<Record>, title: string)
    requires Scan(items, title) != []
    ensures exists i :: IsFirstMatch(items, title, i) && items[i] == Scan(items, title)[0]
  {
    if !items[0].HasTitle(title) {
      ScanHeadIsFirstMatch(items[1..], title);
      var j :| IsFirstMatch(items[1..], title, j) && items[1..][j] == Scan(items[1..], title)[0];
      forall k | 0 <= k < j + 1 ensures !items[k].HasTitle(title) {
        if k > 0 { assert items[k] == items[1..][k - 1]; }
      }
      assert IsFirstMatch(items, title, j + 1);
    } else {
      assert IsFirstMatch(items, title, 0);
    }
  }
}
