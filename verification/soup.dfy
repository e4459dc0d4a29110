/** The text BeautifulSoup gives for an element.  An element's text is the
    sequence of its text nodes in document order (`fragments`); `<br>` and
    other tags only separate fragments. */
module SoupText {
  import opened PyText

  /** `el.get_text()`: the fragments run together. */
  function TextOf(frags: seq<string>): string
  {
    if |frags| == 0 then "" else frags[0] + TextOf(frags[1..])
  }

  /** The fragments `get_text(strip=True)` keeps: each one stripped, the ones
      that strip to nothing dropped. */
  function StrippedPieces(frags: seq<string>): (ps: seq<string>)
    ensures |ps| <= |frags|
    ensures forall k :: 0 <= k < |ps| ==> ps[k] != "" && IsStripped(ps[k])
  {
    if |frags| == 0 then []
    else
      StripStripped(Strip(frags[0]));
      var rest := StrippedPieces(frags[1..]);
      if Strip(frags[0]) == "" then rest else [Strip(frags[0])] + rest
  }

  /** `el.get_text(separator=sep, strip=True)`. */
  function StrippedText(sep: string, frags: seq<string>): string
  {
    Join(sep, StrippedPieces(frags))
  }

  /** The words of every fragment, in document order: a reference for what
      the spaced, stripped text of an element holds. */
  function FragmentWords(frags: seq<string>): seq<string>
  {
    if |frags| == 0 then [] else Split(frags[0]) + FragmentWords(frags[1..])
  }

  /** A fragment that is only whitespace has nothing to give. */
  predicate Blank(f: string) {
    Strip(f) == ""
  }

  /** `el.get_text(separator=' ', strip=True).split()` are the words of the
      fragments: stripping and the single-space separator change no word
      and merge none. */
  lemma {:induction false} SpacedTextWords(frags: seq<string>)
    ensures Split(StrippedText(" ", frags)) == FragmentWords(frags)
  {
    if |frags| > 0 {
      var f := frags[0];
      var rest := frags[1..];
      SpacedTextWords(rest);
      SplitStrip(f);
      var ps := StrippedPieces(rest);
      if Strip(f) == "" {
        assert Split(f) == [];
        assert FragmentWords(frags) == [] + FragmentWords(rest);
      } else if ps == [] {
        assert StrippedPieces(frags) == [Strip(f)];
        assert Split(Join(" ", ps)) == [];
        assert FragmentWords(frags) == Split(f) + FragmentWords(rest);
      } else {
        assert StrippedPieces(frags) == [Strip(f)] + ps;
        assert Join(" ", [Strip(f)] + ps) == Strip(f) + " " + Join(" ", ps);
        SplitJoinedBySpace(Strip(f), Join(" ", ps));
      }
    }
  }

  /** Joining stripped, non-empty pieces with no separator leaves no
      whitespace at either end. */
  lemma {:induction false} GluedPiecesStripped(ps: seq<string>)
    requires forall k :: 0 <= k < |ps| ==> ps[k] != "" && IsStripped(ps[k])
    ensures IsStripped(Join("", ps))
    ensures Join("", ps) == "" <==> ps == []
  {
    if |ps| > 1 {
      GluedPiecesStripped(ps[1..]);
      var t := Join("", ps[1..]);
      assert Join("", ps) == ps[0] + "" + t;
      assert (ps[0] + "" + t)[0] == ps[0][0];
      assert (ps[0] + "" + t)[|ps[0]| + |t| - 1] == t[|t| - 1];
    }
  }

  /** `el.get_text(strip=True)` has no whitespace at its ends, and is empty
      exactly when every fragment is blank. */
  lemma GluedTextStripped(frags: seq<string>)
    ensures IsStripped(StrippedText("", frags))
    ensures StrippedText("", frags) == "" <==> forall k :: 0 <= k < |frags| ==> Blank(frags[k])
  {
    GluedPiecesStripped(StrippedPieces(frags));
    PiecesEmptyIffBlank(frags);
  }

  lemma {:induction false} PiecesEmptyIffBlank(frags: seq<string>)
    ensures StrippedPieces(frags) == [] <==> forall k :: 0 <= k < |frags| ==> Blank(frags[k])
  {
    if |frags| > 0 {
      PiecesEmptyIffBlank(frags[1..]);
      assert forall k :: 1 <= k < |frags| ==> frags[k] == frags[1..][k - 1];
    }
  }
}
