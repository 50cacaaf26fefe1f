/** The page header's two computations: the breadcrumb trail derived from
    the current path, and the initials shown in the avatar. */
module HeaderNav {
  import opened Http
  import opened Text
  import Registry

  /** One breadcrumb: its caption (`label`), its link target (also its list key) and
      whether it stands for the page being shown. */
  datatype Crumb = Crumb(caption: string, href: string, isCurrentPage: bool)

  /** Fixed labels for the known path segments. */
  const LabelMap: map<string, string> := map[
    "issue-def" := "Issue Def",
    "department-def" := "Department Def",
    "company-def" := "Company Def",
    "role-def" := "Role Def",
    "user-def" := "User Def",
    "complaints" := "Complaints"
  ]

  /** `word.charAt(0).toUpperCase() + word.slice(1)` */
  function CapitalizeWord(w: string): (r: string)
    ensures |r| == |w|
    ensures |w| > 0 ==> r[0] == UpperChar(w[0]) && r[1..] == w[1..]
  {
    if w == "" then "" else [UpperChar(w[0])] + w[1..]
  }

  /** Every word capitalised, in order. */
  function CapitalizeAll(words: seq<string>): (r: seq<string>)
    ensures |r| == |words|
    ensures forall i | 0 <= i < |words| :: r[i] == CapitalizeWord(words[i])
  {
    if words == [] then [] else [CapitalizeWord(words[0])] + CapitalizeAll(words[1..])
  }

  /** The words of a segment capitalised and joined with spaces:
      `segment.split("-").map(capitalise).join(" ")`. */
  function Capitalized(segment: string): (r: string)
    ensures |r| == |segment|
  {
    var words := Split(segment, '-');
    JoinSplit(segment, '-');
    JoinLengthsAgree(words, CapitalizeAll(words), "-", " ");
    Join(CapitalizeAll(words), " ")
  }

  /** Joining pieces of the same lengths with separators of the same length
      gives strings of the same length. */
  lemma {:induction false} JoinLengthsAgree(ws: seq<string>, vs: seq<string>, a: string, b: string)
    requires |ws| == |vs| && |a| == |b|
    requires forall i | 0 <= i < |ws| :: |vs[i]| == |ws[i]|
    ensures |Join(vs, b)| == |Join(ws, a)|
    decreases |ws|
  {
    if |ws| > 1 {
      JoinLengthsAgree(ws[1..], vs[1..], a, b);
    }
  }

  /** A segment's label: its fixed label when it has one, otherwise its
      words capitalised. Either way the label is as long as the segment,
      each hyphen standing for one space, so a segment never gets an empty
      label. */
  function Label(segment: string): (r: string)
    ensures |r| == |segment|
    ensures segment !in LabelMap ==> r == Capitalized(segment)
  {
    if segment in LabelMap then LabelMap[segment] else Capitalized(segment)
  }

  /** A segment made of hyphen-joined words is captioned with exactly those
      words, capitalised, in order. */
  lemma CapitalizedWords(words: seq<string>)
    requires |words| >= 1
    requires forall i | 0 <= i < |words| :: '-' !in words[i]
    ensures Capitalized(Join(words, "-")) == Join(CapitalizeAll(words), " ")
  {
    SplitJoin(words, '-');
    assert Split(Join(words, "-"), '-') == words by {
      assert "-" == ['-'];
    }
  }

  /** `filter(Boolean)`: the non-empty pieces, in order. */
  function NonEmptyParts(parts: seq<string>): (r: seq<string>)
    ensures |r| <= |parts|
    ensures forall i | 0 <= i < |r| :: r[i] != "" && r[i] in parts
  {
    if parts == [] then []
    else (if parts[0] == "" then [] else [parts[0]]) + NonEmptyParts(parts[1..])
  }

  lemma {:induction false} NonEmptyPartsKeepsAll(parts: seq<string>)
    requires forall i | 0 <= i < |parts| :: parts[i] != ""
    ensures NonEmptyParts(parts) == parts
    decreases |parts|
  {
    if parts != [] {
      NonEmptyPartsKeepsAll(parts[1..]);
      assert parts == [parts[0]] + parts[1..];
    }
  }

  /** `pathname.split("/").filter(Boolean)`: the path's non-empty segments,
      none of which contains a slash. */
  function Segments(pathname: string): (segs: seq<string>)
    ensures forall i | 0 <= i < |segs| :: segs[i] != "" && '/' !in segs[i]
  {
    SplitPieces(pathname, '/');
    NonEmptyParts(Split(pathname, '/'))
  }

  /** The path built from these segments, each preceded by a slash. */
  function PathOf(segs: seq<string>): string {
    if segs == [] then "" else Join([""] + segs, "/")
  }

  /** Appending a segment to the path appends `/segment`: the step
      `currentPath += "/" + segment`. */
  lemma PathOfSnoc(segs: seq<string>, s: string)
    ensures PathOf(segs + [s]) == PathOf(segs) + "/" + s
  {
    if segs == [] {
      assert [""] + [s] == ["", s];
      assert Join(["", s], "/") == "" + "/" + Join([s], "/");
    } else {
      assert [""] + (segs + [s]) == ([""] + segs) + [s];
      JoinSnoc([""] + segs, s, "/");
    }
  }

  /** The path up to segment `k` extends the path before it by `/` and
      that segment. */
  lemma PathStep(segs: seq<string>, k: nat)
    requires k < |segs|
    ensures PathOf(segs[..k + 1]) == PathOf(segs[..k]) + "/" + segs[k]
  {
    assert segs[..k + 1] == segs[..k] + [segs[k]];
    PathOfSnoc(segs[..k], segs[k]);
  }

  /** A path built from proper segments splits back into those segments. */
  lemma PathRoundTrip(segs: seq<string>)
    requires forall i | 0 <= i < |segs| :: segs[i] != "" && '/' !in segs[i]
    ensures Segments(PathOf(segs)) == segs
  {
    if segs == [] {
      assert Split("", '/') == [""];
    } else {
      SplitJoin([""] + segs, '/');
      assert NonEmptyParts([""] + segs) == NonEmptyParts(segs) by {
        assert ([""] + segs)[1..] == segs;
      }
      NonEmptyPartsKeepsAll(segs);
    }
  }

  /** The crumb for segment `i` of `segs`: its label, the path up to and
      including it, current when it is the last one. */
  function SegmentCrumb(segs: seq<string>, i: nat): Crumb
    requires i < |segs|
  {
    Crumb(Label(segs[i]), PathOf(segs[..i + 1]), i == |segs| - 1)
  }

  /** The crumbs for the first `k` segments, in order. */
  function Trail(segs: seq<string>, k: nat): (trail: seq<Crumb>)
    requires k <= |segs|
    ensures |trail| == k
  {
    if k == 0 then [] else Trail(segs, k - 1) + [SegmentCrumb(segs, k - 1)]
  }

  /** Crumb `i` of a trail is the crumb for segment `i`. */
  lemma {:induction false} TrailAt(segs: seq<string>, k: nat, i: nat)
    requires i < k <= |segs|
    ensures Trail(segs, k)[i] == SegmentCrumb(segs, i)
    decreases k
  {
    if i < k - 1 {
      var t := Trail(segs, k - 1);
      assert Trail(segs, k) == t + [SegmentCrumb(segs, k - 1)];
      assert Trail(segs, k)[i] == t[i];
      TrailAt(segs, k - 1, i);
    }
  }

  /** The trail has one crumb per segment, the `i`-th for segment `i`. */
  lemma TrailIndex(segs: seq<string>, k: nat)
    requires k <= |segs|
    ensures forall i | 0 <= i < k :: Trail(segs, k)[i] == SegmentCrumb(segs, i)
  {
    forall i | 0 <= i < k
      ensures Trail(segs, k)[i] == SegmentCrumb(segs, i)
    {
      TrailAt(segs, k, i);
    }
  }

  /** One step of the trail: the next crumb links to the current path
      extended by `/` and the next segment. */
  lemma TrailStep(segs: seq<string>, k: nat, built: seq<Crumb>)
    requires k < |segs|
    requires built == [Crumb("Home", "/", false)] + Trail(segs, k)
    ensures PathOf(segs[..k + 1]) == PathOf(segs[..k]) + "/" + segs[k]
    ensures built + [Crumb(Label(segs[k]), PathOf(segs[..k]) + "/" + segs[k], k == |segs| - 1)]
              == [Crumb("Home", "/", false)] + Trail(segs, k + 1)
  {
    PathStep(segs, k);
  }

  /** The trail for a path: a single current "Home" crumb for `/`;
      otherwise a "Home" crumb followed by one crumb per segment. */
  function Breadcrumbs(pathname: string): (trail: seq<Crumb>)
    ensures pathname == "/" ==> |trail| == 1
    ensures pathname != "/" ==> |trail| == |Segments(pathname)| + 1
  {
    if pathname == "/" then [Crumb("Home", "/", true)]
    else [Crumb("Home", "/", false)] + Trail(Segments(pathname), |Segments(pathname)|)
  }

  /** `getBreadcrumbs`: builds the trail segment by segment, extending the
      current path by one segment per step. */
  method GetBreadcrumbs(pathname: string) returns (crumbs: seq<Crumb>)
    ensures crumbs == Breadcrumbs(pathname)
  {
    if pathname == "/" {
      return [Crumb("Home", "/", true)];
    }
    var segments := Segments(pathname);
    crumbs := [Crumb("Home", "/", false)];
    var currentPath := "";
    var index := 0;
    while index < |segments|
      invariant 0 <= index <= |segments|
      invariant currentPath == PathOf(segments[..index])
      invariant crumbs == [Crumb("Home", "/", false)] + Trail(segments, index)
    {
      var segment := segments[index];
      TrailStep(segments, index, crumbs);
      currentPath := currentPath + "/" + segment;
      var caption := Label(segment);
      crumbs := crumbs + [Crumb(caption, currentPath, index == |segments| - 1)];
      index := index + 1;
    }
    assert crumbs == [Crumb("Home", "/", false)] + Trail(segments, |segments|);
  }

  /** Exactly one crumb is the current page, the last one, except for a path
      made only of slashes other than `/` itself (such as `//`), whose trail
      is a lone "Home" link with no current page. */
  lemma OnlyLastCrumbCurrent(pathname: string)
    ensures var trail := Breadcrumbs(pathname);
      forall i | 0 <= i < |trail| ::
        trail[i].isCurrentPage <==> i == |trail| - 1 && (pathname == "/" || |Segments(pathname)| > 0)
  {
    if pathname != "/" {
      var segs := Segments(pathname);
      TrailIndex(segs, |segs|);
      var trail := Breadcrumbs(pathname);
      forall i | 0 < i < |trail|
        ensures trail[i] == SegmentCrumb(segs, i - 1)
      {
        assert trail[i] == Trail(segs, |segs|)[i - 1];
      }
    }
  }

  /** Apart from the leading "Home" link, crumb `i` is captioned with the
      label of segment `i` and links to `/` followed by the first `i`
      segments joined with `/`. */
  lemma CrumbsOfSegments(pathname: string)
    requires pathname != "/"
    ensures var trail := Breadcrumbs(pathname);
      var segs := Segments(pathname);
      && trail[0] == Crumb("Home", "/", false)
      && forall i | 0 < i < |trail| ::
           trail[i].caption == Label(segs[i - 1]) && trail[i].href == "/" + Join(segs[..i], "/")
  {
    var segs := Segments(pathname);
    var trail := Breadcrumbs(pathname);
    forall i | 0 < i < |trail|
      ensures trail[i].caption == Label(segs[i - 1]) && trail[i].href == "/" + Join(segs[..i], "/")
    {
      assert trail[i] == Trail(segs, |segs|)[i - 1];
      TrailAt(segs, |segs|, i - 1);
      PathOfJoin(segs[..i]);
    }
  }

  /** A non-empty list of segments makes the path `/` followed by the
      segments joined with `/`. */
  lemma PathOfJoin(segs: seq<string>)
    requires segs != []
    ensures PathOf(segs) == "/" + Join(segs, "/")
  {
    assert ([""] + segs)[1..] == segs;
    assert Join([""] + segs, "/") == "" + "/" + Join(segs, "/");
  }

  /** Each path prefix is longer than the one before it, by at least two
      characters, since segments are never empty. */
  lemma {:induction false} PathGrows(segs: seq<string>, i: nat, j: nat)
    requires i < j <= |segs|
    requires forall k | 0 <= k < |segs| :: segs[k] != ""
    ensures |PathOf(segs[..i])| + 2 <= |PathOf(segs[..j])|
    decreases j
  {
    PathStep(segs, j - 1);
    if i < j - 1 {
      PathGrows(segs, i, j - 1);
    }
  }

  /** Every later crumb's link is longer than every earlier one's, so the
      links, which serve as list keys, are pairwise distinct. */
  lemma CrumbLinksDistinct(pathname: string)
    ensures var trail := Breadcrumbs(pathname);
      forall i, j | 0 <= i < j < |trail| :: |trail[i].href| < |trail[j].href|
  {
    if pathname != "/" {
      var segs := Segments(pathname);
      TrailIndex(segs, |segs|);
      var trail := Breadcrumbs(pathname);
      assert |PathOf(segs[..0])| == 0;
      forall i, j | 0 <= i < j < |trail|
        ensures |trail[i].href| < |trail[j].href|
      {
        assert trail[j] == Trail(segs, |segs|)[j - 1];
        PathGrows(segs, i, j);
        if i > 0 {
          assert trail[i] == Trail(segs, |segs|)[i - 1];
        }
      }
    }
  }

  /** Each segment crumb links to the path up to and including its segment:
      splitting the link gives back exactly the segments before it. */
  lemma CrumbLinksToPrefix(pathname: string)
    requires pathname != "/"
    ensures var trail := Breadcrumbs(pathname);
      forall i | 0 < i < |trail| :: Segments(trail[i].href) == Segments(pathname)[..i]
  {
    var segs := Segments(pathname);
    TrailIndex(segs, |segs|);
    var trail := Breadcrumbs(pathname);
    forall i | 0 < i < |trail|
      ensures Segments(trail[i].href) == segs[..i]
    {
      assert trail[i] == Trail(segs, |segs|)[i - 1];
      assert forall k | 0 <= k < |segs[..i]| :: segs[..i][k] == segs[k];
      PathRoundTrip(segs[..i]);
    }
  }

  /** `segment[0]` of every piece, joined: an empty piece contributes
      nothing, because `undefined` joins as the empty string. */
  function Firsts(parts: seq<string>): (r: string)
    ensures |r| <= |parts|
  {
    if parts == [] then ""
    else (if parts[0] == "" then "" else [parts[0][0]]) + Firsts(parts[1..])
  }

  /** Non-empty pieces contribute one character each, their first. */
  lemma {:induction false} FirstsOfWords(words: seq<string>)
    requires forall i | 0 <= i < |words| :: words[i] != ""
    ensures |Firsts(words)| == |words|
    ensures forall i | 0 <= i < |words| :: Firsts(words)[i] == words[i][0]
    decreases |words|
  {
    if words != [] {
      FirstsOfWords(words[1..]);
    }
  }

  /** `getUserInitials`: "U" without a name; otherwise the first letters of
      the space-separated words, upper-cased, at most two of them. */
  function UserInitials(name: Option<string>): (r: string)
    ensures !Given(name) ==> r == "U"
    ensures |r| <= 2
    ensures Registry.NoLower(r)
  {
    if !Given(name) then "U"
    else
      var all := Upper(Firsts(Split(name.value, ' ')));
      if |all| <= 2 then all else all[..2]
  }

  /** A name of space-separated words gets the initials of its first one or
      two words. */
  lemma InitialsOfWords(words: seq<string>)
    requires |words| >= 1
    requires forall i | 0 <= i < |words| :: words[i] != "" && ' ' !in words[i]
    ensures UserInitials(Some(Join(words, " "))) ==
              if |words| == 1 then [UpperChar(words[0][0])] else [UpperChar(words[0][0]), UpperChar(words[1][0])]
  {
    var name := Join(words, " ");
    assert |name| >= |words[0]| > 0;
    assert Split(name, ' ') == words by {
      assert " " == [' '];
      SplitJoin(words, ' ');
    }
    FirstsOfWords(words);
    var all := Upper(Firsts(words));
    assert UserInitials(Some(name)) == if |all| <= 2 then all else all[..2];
  }

  /** Splitting a run of spaces gives only empty pieces. */
  lemma {:induction false} SplitSpaces(s: string)
    requires forall i | 0 <= i < |s| :: s[i] == ' '
    ensures forall i | 0 <= i < |Split(s, ' ')| :: Split(s, ' ')[i] == ""
    decreases |s|
  {
    if s != [] {
      assert s[0] == ' ';
      assert IndexOf(s, ' ') == 0;
      SplitSpaces(s[1..]);
    }
  }

  lemma {:induction false} FirstsOfEmpties(parts: seq<string>)
    requires forall i | 0 <= i < |parts| :: parts[i] == ""
    ensures Firsts(parts) == ""
    decreases |parts|
  {
    if parts != [] {
      FirstsOfEmpties(parts[1..]);
    }
  }

  /** A name made of spaces only is truthy, so it does not get "U", but it
      has no word to take a letter from: the avatar shows nothing. */
  lemma SpacesOnlyNameHasNoInitials(s: string)
    requires s != "" && forall i | 0 <= i < |s| :: s[i] == ' '
    ensures UserInitials(Some(s)) == ""
  {
    SplitSpaces(s);
    FirstsOfEmpties(Split(s, ' '));
  }
}
