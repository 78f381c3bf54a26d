/**
 * The two HTML fragments the filter controller emits around its data: the
 * count badge appended to option labels, and the headline container. Each
 * comes with the reader that takes it apart again.
 */
module Markup {
  import opened Wrappers
  import opened PhpStrings

  const BadgeOpen: string := "<span class=\"item-counter\">["
  const BadgeClose: string := "]</span>"

  /** `<span class="item-counter">[n]</span>`. */
  function Badge(n: nat): string {
    BadgeOpen + NatToString(n) + BadgeClose
  }

  /** The count inside a badge; `None` for any other string. */
  function ParseBadge(s: string): Option<nat> {
    if |s| >= |BadgeOpen| + |BadgeClose|
       && s[..|BadgeOpen|] == BadgeOpen
       && s[|s| - |BadgeClose|..] == BadgeClose
    then ParseNat(s[|BadgeOpen|..|s| - |BadgeClose|])
    else None
  }

  lemma BadgeRoundTrip(n: nat)
    ensures ParseBadge(Badge(n)) == Some(n)
  {
    var s := Badge(n);
    assert s[..|BadgeOpen|] == BadgeOpen;
    assert s[|s| - |BadgeClose|..] == BadgeClose;
    assert s[|BadgeOpen|..|s| - |BadgeClose|] == NatToString(n);
    NatToStringRoundTrip(n);
  }

  /** A badge is the only string that reads back as its count: no `[07]` for 7. */
  lemma BadgeParseExact(s: string)
    ensures ParseBadge(s).Some? ==> s == Badge(ParseBadge(s).value)
  {
    if ParseBadge(s).Some? {
      var mid := s[|BadgeOpen|..|s| - |BadgeClose|];
      ParseNatExact(mid);
      assert s == s[..|BadgeOpen|] + mid + s[|s| - |BadgeClose|..];
    }
  }

  const HeadlineClass: string := "<div class=\"plenta_jobs_basic_filter_widget_headline "
  const HeadlineClose: string := "</div>"

  /** Everything up to the content: the container's opening tag for `kind`. */
  function HeadlineOpen(kind: string): string {
    HeadlineClass + kind + "\">"
  }

  /** The content of a headline container of the given kind; `None` otherwise. */
  function ParseHeadline(s: string, kind: string): Option<string> {
    var open := HeadlineOpen(kind);
    if |s| >= |open| + |HeadlineClose|
       && s[..|open|] == open
       && s[|s| - |HeadlineClose|..] == HeadlineClose
    then Some(s[|open|..|s| - |HeadlineClose|])
    else None
  }
}
