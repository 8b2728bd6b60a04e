/** Continuation detection from the `Link` response header.

    The program does not parse the header with the grammar of section 3 of
    RFC 8288: it cuts the header at every ", " and reports a next page when some
    piece contains the text `rel="next"`. This module follows that rule. */
module Link {
  import opened Text

  /** What the header is cut at. */
  const Separator: string := ", "

  /** What a piece must contain to announce a next page. */
  const NextRel: string := "rel=\"next\""

  /** Neither byte of the separator occurs in `rel="next"`. */
  lemma SeparatorBytesNotInNextRel()
    ensures forall k :: 0 <= k < |Separator| ==> Separator[k] !in NextRel
  {
  }

  /** The continuation rule: some piece of the header contains `rel="next"`.
      A missing header reads as the empty string. Cutting the header first
      changes nothing: there is a next page exactly when `rel="next"` occurs
      anywhere in the header, because an occurrence can never straddle a ", ". */
  predicate HasNext(link: string): (b: bool)
    ensures b <==> Contains(link, NextRel)
  {
    var pieces := Split(link, Separator);
    SplitJoin(link, Separator);
    SeparatorBytesNotInNextRel();
    ContainsJoin(pieces, Separator, NextRel);
    exists k :: 0 <= k < |pieces| && Contains(pieces[k], NextRel)
  }

  /** An empty (or missing) header never announces a next page. */
  lemma EmptyHeaderHasNoNext()
    ensures !HasNext("")
  {
  }

  /** The scan of the program: walk the pieces of the header in order and stop
      at the first one that contains `rel="next"`. */
  method ScanHasNext(link: string) returns (hasNext: bool)
    ensures hasNext <==> HasNext(link)
    ensures hasNext <==> Contains(link, NextRel)
  {
    var pieces := Split(link, Separator);
    hasNext := false;
    var i := 0;
    while i < |pieces|
      invariant 0 <= i <= |pieces|
      invariant forall j :: 0 <= j < i ==> !Contains(pieces[j], NextRel)
    {
      if Contains(pieces[i], NextRel) {
        hasNext := true;
        break;
      }
      i := i + 1;
    }
  }

  /** A header of the shape the hosting API sends on a middle page. */
  lemma MiddlePageHeaderHasNext()
    ensures HasNext("<p2>; rel=\"next\", <p5>; rel=\"last\"")
  {
    var link := "<p2>; rel=\"next\", <p5>; rel=\"last\"";
    assert |NextRel| == 10;
    assert link[6..16] == NextRel by {
      assert forall j :: 0 <= j < 10 ==> link[6 + j] == NextRel[j];
    }
    assert OccursAt(link, NextRel, 6);
  }
}
