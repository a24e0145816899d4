/**
 * How the content script finds a post's community name (content.js, filterFeedContent):
 * the post's candidate link elements are tried in selector order; a candidate whose trimmed
 * text starts with "r/" yields the rest of the text, otherwise its href is searched with the
 * case-insensitive pattern /\/r\/([^/]+)/i; the first candidate that yields a name wins.
 */
module Extraction {
  import opened Wrappers
  import opened Text

  /** A candidate link element: its textContent and its href attribute (None when absent). */
  datatype Link = Link(textContent: string, href: Option<string>)

  /** "/r/" at position i, the "r" in either case. */
  predicate SlashRAt(h: string, i: int)
  {
    0 <= i && i + 3 <= |h| && h[i] == '/' && (h[i + 1] == 'r' || h[i + 1] == 'R') && h[i + 2] == '/'
  }

  /** The pattern /\/r\/([^/]+)/i matches at position i: "/r/" followed by at least one non-slash character. */
  predicate MatchAt(h: string, i: int)
  {
    SlashRAt(h, i) && i + 3 < |h| && h[i + 3] != '/'
  }

  /** The end of the run of non-slash characters that starts at j: the group [^/]+ is greedy. */
  function SegmentEnd(h: string, j: nat): (e: nat)
    requires j <= |h|
    ensures j <= e <= |h|
    ensures e == |h| || h[e] == '/'
    ensures forall k :: j <= k < e ==> h[k] != '/'
    decreases |h| - j
  {
    if j == |h| || h[j] == '/' then j else SegmentEnd(h, j + 1)
  }

  /** The capture group of the leftmost match at or after position i, scanning left to right as the regex engine does. */
  function MatchFrom(h: string, i: nat): (g: Option<string>)
    ensures g.None? <==> forall k :: i <= k ==> !MatchAt(h, k)
    ensures g.Some? ==> g.value != [] && forall k :: 0 <= k < |g.value| ==> g.value[k] != '/'
    decreases |h| - i
  {
    if i + 3 >= |h| then None
    else if MatchAt(h, i) then Some(h[i + 3..SegmentEnd(h, i + 3)])
    else MatchFrom(h, i + 1)
  }

  /** `match[1]` of `href.match(/\/r\/([^/]+)/i)`, or None when the pattern does not occur. */
  function CaptureGroup(href: string): (g: Option<string>)
    ensures g.None? <==> forall k :: 0 <= k ==> !MatchAt(href, k)
    ensures g.Some? ==> g.value != [] && forall k :: 0 <= k < |g.value| ==> g.value[k] != '/'
  {
    MatchFrom(href, 0)
  }

  /** The group comes from the leftmost occurrence of the pattern and is the whole run of non-slash characters after it. */
  lemma {:induction false} CaptureGroupIsLeftmost(h: string, i: nat, k: nat)
    requires i <= k && MatchAt(h, k)
    requires forall j :: i <= j < k ==> !MatchAt(h, j)
    ensures MatchFrom(h, i) == Some(h[k + 3..SegmentEnd(h, k + 3)])
    decreases k - i
  {
    if i < k {
      CaptureGroupIsLeftmost(h, i + 1, k);
    }
  }

  /** A link to a community page, such as "/r/AskReddit/comments/…", yields the community segment. */
  lemma CaptureGroupOfCommunityPath(segment: string, rest: string)
    requires segment != [] && forall k :: 0 <= k < |segment| ==> segment[k] != '/'
    requires rest == [] || rest[0] == '/'
    ensures CaptureGroup("/r/" + segment + rest) == Some(segment)
  {
    var h := "/r/" + segment + rest;
    assert MatchAt(h, 0) by {
      assert h[3] == segment[0];
    }
    CaptureGroupIsLeftmost(h, 0, 0);
    var e := SegmentEnd(h, 3);
    assert e == 3 + |segment| by {
      forall k | 3 <= k < 3 + |segment| ensures h[k] != '/' {
        assert h[k] == segment[k - 3];
      }
      if 3 + |segment| < |h| {
        assert h[3 + |segment|] == rest[0];
      }
      SegmentEndIsFirstSlash(h, 3, 3 + |segment|);
    }
    assert h[3..e] == segment;
  }

  /** SegmentEnd stops exactly at the first slash (or at the end). */
  lemma {:induction false} SegmentEndIsFirstSlash(h: string, j: nat, e: nat)
    requires j <= e <= |h|
    requires forall k :: j <= k < e ==> h[k] != '/'
    requires e == |h| || h[e] == '/'
    ensures SegmentEnd(h, j) == e
    decreases e - j
  {
    if j < e {
      SegmentEndIsFirstSlash(h, j + 1, e);
    }
  }

  /** Lower-casing maps '/' to itself and no other character to '/', so a non-empty slash-free group stays so. */
  lemma LowerKeepsSlashFree(g: string)
    requires g != [] && forall k :: 0 <= k < |g| ==> g[k] != '/'
    ensures Lower(g) != [] && forall k :: 0 <= k < |Lower(g)| ==> Lower(g)[k] != '/'
  {
  }

  /**
   * What one candidate element yields: the lower-cased rest of its trimmed text when that text
   * starts with "r/" (even when the rest is empty), else the lower-cased capture group of a
   * non-empty href, else nothing.
   */
  function LinkName(link: Link): (r: Option<string>)
    ensures r.Some? ==> IsLowerCase(r.value)
    ensures r.Some? && !StartsWith(Trim(link.textContent), "r/") ==>
              r.value != [] && forall k :: 0 <= k < |r.value| ==> r.value[k] != '/'
  {
    var text := Trim(link.textContent);
    if StartsWith(text, "r/") then Some(Lower(text[2..]))
    else if link.href.Some? && link.href.value != "" then
      match CaptureGroup(link.href.value)
      case Some(group) => LowerKeepsSlashFree(group); Some(Lower(group))
      case None => None
    else None
  }

  /** A text starting with "r/" decides the name on its own: the href is not consulted. */
  lemma TextPrefixWins(text: string, href1: Option<string>, href2: Option<string>)
    requires StartsWith(Trim(text), "r/")
    ensures LinkName(Link(text, href1)) == LinkName(Link(text, href2)) == Some(Lower(Trim(text)[2..]))
  {
  }

  /** Without the text prefix, the name is the lower-cased capture group, and a missing href behaves like an empty one. */
  lemma HrefFallback(text: string, href: string)
    requires !StartsWith(Trim(text), "r/")
    ensures LinkName(Link(text, None)) == None
    ensures LinkName(Link(text, Some(""))) == None
    ensures LinkName(Link(text, Some(href))) ==
              (if CaptureGroup(href).Some? then Some(Lower(CaptureGroup(href).value)) else None)
  {
    if href == "" {
      assert CaptureGroup(href).None?;
    }
  }

  /** What the selector loop sees for one selector: `post.querySelector(selector)` may find nothing. */
  function Attempt(candidate: Option<Link>): (r: Option<string>)
    ensures candidate.None? ==> r.None?
    ensures candidate.Some? ==> r == LinkName(candidate.value)
    ensures r.Some? ==> IsLowerCase(r.value)
  {
    if candidate.Some? then LinkName(candidate.value) else None
  }

  /** The name the selector loop settles on: the first candidate, in selector order, that yields one. */
  function NameOf(candidates: seq<Option<Link>>): (r: Option<string>)
    ensures r.Some? ==> IsLowerCase(r.value)
    ensures r.None? <==> forall k :: 0 <= k < |candidates| ==> Attempt(candidates[k]).None?
  {
    if candidates == [] then None
    else if Attempt(candidates[0]).Some? then Attempt(candidates[0])
    else NameOf(candidates[1..])
  }

  /** First success wins: the name is that of candidate k exactly when every earlier candidate yields nothing. */
  lemma {:induction false} FirstSuccessWins(candidates: seq<Option<Link>>, k: nat)
    requires k < |candidates| && Attempt(candidates[k]).Some?
    requires forall j :: 0 <= j < k ==> Attempt(candidates[j]).None?
    ensures NameOf(candidates) == Attempt(candidates[k])
    decreases k
  {
    if k > 0 {
      var rest := candidates[1..];
      assert rest[k - 1] == candidates[k];
      forall j | 0 <= j < k - 1
        ensures Attempt(rest[j]).None?
      {
        assert rest[j] == candidates[j + 1];
      }
      FirstSuccessWins(rest, k - 1);
      assert Attempt(candidates[0]).None?;
      assert NameOf(candidates) == NameOf(rest);
    }
  }

  /** The selector loop of filterFeedContent, with its early `break`. */
  method ExtractName(candidates: seq<Option<Link>>) returns (name: Option<string>)
    ensures name == NameOf(candidates)
  {
    name := None;
    var i := 0;
    while i < |candidates|
      invariant 0 <= i <= |candidates|
      invariant name == None
      invariant NameOf(candidates) == NameOf(candidates[i..])
    {
      assert NameOf(candidates[i..]) ==
        if Attempt(candidates[i]).Some? then Attempt(candidates[i]) else NameOf(candidates[i + 1..])
      by {
        assert candidates[i..][0] == candidates[i];
        assert candidates[i..][1..] == candidates[i + 1..];
      }
      var element := candidates[i];
      if element.Some? {
        var text := Trim(element.value.textContent);
        var href := element.value.href;
        if StartsWith(text, "r/") {
          name := Some(Lower(text[2..]));
          assert name == Attempt(element);
          break;
        } else if href.Some? && href.value != "" {
          var found := CaptureGroup(href.value);
          if found.Some? && found.value != "" {
            name := Some(Lower(found.value));
            assert name == Attempt(element);
            break;
          }
        }
      }
      assert Attempt(element).None?;
      i := i + 1;
    }
  }
}
