/** The three ways the repository reads a `Link` header, side by side: the
    lenient pattern of `utils/wh_api_utils.py`, the first-segment split of
    `welcome_home_export/main.py` and the strict pattern of
    `welcome_home/main.py`. */
module LinkCursors {
  import opened Wrappers
  import opened Text
  import WhApiUtils
  import WelcomeHomeExport
  import WelcomeHome

  /** Every match of the strict pattern is a match of the lenient one, with the
      same group. */
  lemma StrictMatchIsCursorMatch(h: string, i: nat, j: nat)
    requires WelcomeHome.StrictMatch(h, i, j)
    ensures WhApiUtils.CursorMatch(h, i, j)
  {
    var q: nat :| SpacesBetween(h, j + 2, q) && HasAt(h, q, WelcomeHome.RelNextQuoted);
    WhApiUtils.QuotedRelNextAt(h, q);
    WhApiUtils.CursorMatchIntro(h, i, j, j + 1, q);
  }

  /** A header the strict reader follows is followed by the lenient reader too. */
  lemma StrictFoundLenientFound(h: string)
    requires WelcomeHome.StrictNextUrl(Some(h)).Some?
    ensures WhApiUtils.NextPageUrl(Some(h)).Some?
  {
    WelcomeHome.StrictNextUrlSome(h);
    var i: nat, j: nat :| WelcomeHome.StrictLeftmost(h, i, j) && WelcomeHome.StrictNextUrl(Some(h)).value == h[i + 1..j];
    StrictMatchIsCursorMatch(h, i, j);
    assert WhApiUtils.MatchesAt(h, i);
    WhApiUtils.NextPageUrlNone(h);
  }

  /** A `prev` link ahead of the `next` link: both pattern readers take the
      `next` link, while the export reader takes the first link. */
  lemma PrevThenNext(h: string)
    requires h == "<p>; rel=\"prev\", <n>; rel=\"next\""
    ensures WhApiUtils.NextPageUrl(Some(h)) == Some("n")
    ensures WelcomeHome.StrictNextUrl(Some(h)) == Some("n")
    ensures WelcomeHomeExport.ExportNextUrl(Some(h)) == Some("p")
  {
    WhApiUtils.CursorExamplePrevThenNext(h);
    StrictPrevThenNext(h);
    ExportPrevThenNext(h);
  }

  /** The export reader on the same header. */
  lemma ExportPrevThenNext(h: string)
    requires h == "<p>; rel=\"prev\", <n>; rel=\"next\""
    ensures WelcomeHomeExport.ExportNextUrl(Some(h)) == Some("p")
  {
    var lead := " rel=\"prev\", <n>; ";
    var rest := lead + WelcomeHomeExport.RelNext;
    assert h == "<p>;" + rest;
    assert "<p>;" == "<" + "p" + ">;";
    HasAtAppend(lead, WelcomeHomeExport.RelNext);
    ContainsAt(rest, WelcomeHomeExport.RelNext, |lead|);
    WelcomeHomeExport.ExportNextUrlFirstLink("p", rest);
  }

  /** A link whose relation is `prev` does not match the strict pattern. */
  lemma StrictPrevLinkNoMatch(h: string)
    requires |h| >= 15 && h[..15] == "<p>; rel=\"prev\""
    ensures !WelcomeHome.StrictMatchesAt(h, 0)
  {
    assert h[0] == '<' && h[1] == 'p' && h[2] == '>' && h[3] == ';' && h[4] == ' ' && h[5] == 'r' && h[10] == 'p';
    FindTo(h, 1, '>', 2);
    SkipSpacesTo(h, 4, 5);
    assert !HasAt(h, 5, WelcomeHome.RelNextQuoted) by {
      assert WelcomeHome.RelNextQuoted[5] == 'n';
    }
    WelcomeHome.StrictMatchAtNoneIff(h, 0);
  }

  /** The strict reader on the same header. */
  lemma StrictPrevThenNext(h: string)
    requires h == "<p>; rel=\"prev\", <n>; rel=\"next\""
    ensures WelcomeHome.StrictNextUrl(Some(h)) == Some("n")
  {
    var first := "<p>; rel=\"prev\", ";
    var lead := first + "<n>; ";
    assert h == lead + WelcomeHome.RelNextQuoted;
    assert h[..15] == "<p>; rel=\"prev\"" by {
      assert h[..15] == first[..15];
    }
    StrictPrevLinkNoMatch(h);
    forall i' | 0 < i' < 17 ensures !WelcomeHome.StrictMatchesAt(h, i') {
      assert h[i'] == first[i'] != '<';
    }
    assert h[17] == '<' && h[18] == 'n' && h[19] == '>' && h[20] == ';' && h[21] == ' ' by {
      assert h[17..22] == "<n>; ";
    }
    HasAtAppend(lead, WelcomeHome.RelNextQuoted);
    assert SpacesBetween(h, 21, 22);
    assert WelcomeHome.StrictMatch(h, 17, 19);
    WelcomeHome.StrictNextUrlLeftmost(h, 17, 19);
    assert h[18..19] == "n";
  }
}
