/**
  Scanning bytes: a scan takes a view and an offset and gives the offset behind the item that
  starts there, `None` when the view ends inside it or the item is unsupported.
 */
module Scans {
  import opened Bytes
  import opened Streams

  type Scan = (seq<Byte>, nat) -> Option<nat>

  function Within(view: seq<Byte>, end: nat): Option<nat> {
    if end <= |view| then Some(end) else None
  }

  /** The offset behind `count` items in a row. */
  function Repeat(scan: Scan, view: seq<Byte>, offset: nat, count: nat): Option<nat>
    decreases count
  {
    if count == 0 then Some(offset)
    else
      var next :- scan(view, offset);
      Repeat(scan, view, next, count - 1)
  }

  lemma {:induction false} RepeatStep(scan: Scan, view: seq<Byte>, offset: nat, count: nat)
    requires count > 0
    ensures Repeat(scan, view, offset, count) ==
            if scan(view, offset).None? then None else Repeat(scan, view, scan(view, offset).value, count - 1)
  {
  }

  /** The scan finds the end of `item` wherever it sits. */
  ghost predicate Finds(scan: Scan, item: seq<Byte>) {
    forall view: seq<Byte>, offset: nat :: Sits(view, offset, item) ==> scan(view, offset) == Some(offset + |item|)
  }

  lemma {:induction false} RepeatFinds(scan: Scan, view: seq<Byte>, offset: nat, items: seq<seq<Byte>>)
    requires Sits(view, offset, Concat(items)) && forall i :: 0 <= i < |items| ==> Finds(scan, items[i])
    ensures Repeat(scan, view, offset, |items|) == Some(offset + |Concat(items)|)
    decreases |items|
  {
    if items != [] {
      SitsSplit(view, offset, items[0], Concat(items[1..]));
      RepeatFinds(scan, view, offset + |items[0]|, items[1..]);
    }
  }

  /** No scan moves backwards. */
  ghost predicate Advances(scan: Scan) {
    forall view: seq<Byte>, offset: nat :: scan(view, offset).Some? ==> offset <= scan(view, offset).value
  }

  lemma {:induction false} RepeatAdvances(scan: Scan, view: seq<Byte>, offset: nat, count: nat)
    requires Advances(scan)
    ensures Repeat(scan, view, offset, count).Some? ==> offset <= Repeat(scan, view, offset, count).value
    decreases count
  {
    if count > 0 && scan(view, offset).Some? {
      RepeatAdvances(scan, view, scan(view, offset).value, count - 1);
    }
  }

  /** Bytes that arrive later never change an end already found. */
  ghost predicate Stable(scan: Scan) {
    forall view: seq<Byte>, offset: nat, more: seq<Byte> ::
      scan(view, offset).Some? ==> scan(view + more, offset) == scan(view, offset)
  }

  lemma {:induction false} RepeatStable(scan: Scan, view: seq<Byte>, offset: nat, count: nat, more: seq<Byte>)
    requires Stable(scan) && Repeat(scan, view, offset, count).Some?
    ensures Repeat(scan, view + more, offset, count) == Repeat(scan, view, offset, count)
    decreases count
  {
    if count > 0 {
      RepeatStable(scan, view, scan(view, offset).value, count - 1, more);
    }
  }

  /** Where the second scan finds an end, so does the first, and it is the same. */
  ghost predicate Extends(fast: Scan, safe: Scan) {
    forall view: seq<Byte>, offset: nat :: safe(view, offset).Some? ==> fast(view, offset) == safe(view, offset)
  }

  lemma {:induction false} RepeatExtends(fast: Scan, safe: Scan, view: seq<Byte>, offset: nat, count: nat)
    requires Extends(fast, safe) && Repeat(safe, view, offset, count).Some?
    ensures Repeat(fast, view, offset, count) == Repeat(safe, view, offset, count)
    decreases count
  {
    if count > 0 {
      RepeatExtends(fast, safe, view, safe(view, offset).value, count - 1);
    }
  }
}
