/** The pure part of `src/scraper.py`: turning the (title, href) pairs of the
    page's linked elements into a map from cohort key to absolute PDF URL.
    Fetching the page and finding the elements that carry both attributes
    happen before this and are not modelled; the nodes arrive in document
    order, and the trusted host prefix is a parameter. */
module Scraper {
  import opened Errors
  import opened Strings
  import Dataloader
  import Guard

  /** An element carrying both a `title` and an `href` attribute. */
  datatype Node = Node(title: string, href: string)

  /** The semester codes of cohorts whose titles use an older naming scheme. */
  const EXCLUDE_SEMESTERS: seq<string> :=
    ["SS22_", "WS21_", "SS21_", "WS20_", "SS20_", "WS19_", "SS19_", "WS18_", "SS18_",
     "WS17_", "SS17_", "WS16_", "SS16_", "WS15_", "SS15_", "WS14_", "SS14_", "WS13_", "SS13_"]

  /** The title prefix of grade-table links. */
  const ECTS: string := "ECTS"

  /** `key[:5]`: the first five characters, or the whole key when shorter. */
  function Semester(key: string): (r: string)
    ensures r <= key
    ensures |r| == if |key| < 5 then |key| else 5
  {
    if |key| < 5 then key else key[..5]
  }

  /** The key's semester is one of the excluded codes: exactly the keys that
      start with one of them. */
  function Excluded(key: string): (b: bool)
    ensures b <==> exists c :: c in EXCLUDE_SEMESTERS && c <= key
  {
    CodesHaveFiveCharacters();
    PrefixInCodes(EXCLUDE_SEMESTERS, key, 5);
    Semester(key) in EXCLUDE_SEMESTERS
  }

  /** Every excluded code is a five-character semester prefix such as `SS22_`. */
  lemma CodesHaveFiveCharacters()
    ensures forall c :: c in EXCLUDE_SEMESTERS ==> |c| == 5
  {
  }

  /** Among codes of one length `n`, the key's first `n` characters are a code
      exactly when some code starts the key. */
  lemma PrefixInCodes(codes: seq<string>, key: string, n: nat)
    requires forall c :: c in codes ==> |c| == n
    ensures (if |key| < n then key else key[..n]) in codes
            <==> exists c :: c in codes && c <= key
  {
    if exists c :: c in codes && c <= key {
      var c :| c in codes && c <= key;
      assert c == key[..n];
    }
  }

  /** `title.startswith("ECTS")`. */
  predicate IsEcts(n: Node) {
    ECTS <= n.title
  }

  /** A grade-table link whose title has no marker: deriving its key raises. */
  predicate Broken(n: Node) {
    IsEcts(n) && !Contains(n.title, Dataloader.MARKER)
  }

  /** A node that contributes an entry: a grade-table link with a key that
      is not excluded. */
  predicate Retained(n: Node) {
    && IsEcts(n)
    && Dataloader.StudyOf(n.title).Ok?
    && !Excluded(Dataloader.StudyOf(n.title).value)
  }

  /** The key a node's title derives, the same way the loader derives a
      cohort identifier from its URL. */
  function KeyOf(n: Node): string
    requires Dataloader.StudyOf(n.title).Ok?
  {
    Dataloader.StudyOf(n.title).value
  }

  /** One turn of the loop: a node that is not a grade-table link or whose
      key is excluded leaves the map alone; a broken one raises; any other
      one maps its key to `host + href`, replacing an earlier entry. */
  function Step(host: string, m: map<string, string>, n: Node): (r: Result<map<string, string>>)
    ensures r.Err? <==> Broken(n)
    ensures r.Err? ==> r.error == IndexError
    ensures r.Ok? && !Retained(n) ==> r.value == m
    ensures r.Ok? && Retained(n) ==> r.value == m[KeyOf(n) := host + n.href]
  {
    if !IsEcts(n) then Ok(m)
    else
      match Dataloader.StudyOf(n.title)
      case Err(e) => Err(e)
      case Ok(key) => if Excluded(key) then Ok(m) else Ok(m[key := host + n.href])
  }

  /** `scrape_ects_chart` after the page is parsed: the loop over the nodes
      in document order, written as recursion on the prefix already seen. A
      broken grade-table link anywhere aborts the whole scrape with
      `IndexError`. */
  function Scrape(host: string, nodes: seq<Node>): (r: Result<map<string, string>>)
    decreases |nodes|
    ensures r.Err? <==> exists i :: 0 <= i < |nodes| && Broken(nodes[i])
    ensures r.Err? ==> r.error == IndexError
  {
    if |nodes| == 0 then Ok(map[])
    else
      var init, last := nodes[..|nodes| - 1], nodes[|nodes| - 1];
      assert forall i :: 0 <= i < |init| ==> init[i] == nodes[i];
      match Scrape(host, init)
      case Err(e) => Err(e)
      case Ok(m) => Step(host, m, last)
  }

  /** Node `i` is the last retained node that derives `key`. */
  predicate LastWith(nodes: seq<Node>, key: string, i: int) {
    && 0 <= i < |nodes|
    && Retained(nodes[i])
    && KeyOf(nodes[i]) == key
    && forall j :: i < j < |nodes| && Retained(nodes[j]) ==> KeyOf(nodes[j]) != key
  }

  /** The keys of the result are exactly the keys of the retained nodes. */
  lemma {:induction false} ScrapeKeys(host: string, nodes: seq<Node>)
    requires Scrape(host, nodes).Ok?
    decreases |nodes|
    ensures forall key :: key in Scrape(host, nodes).value <==>
              exists i :: 0 <= i < |nodes| && Retained(nodes[i]) && KeyOf(nodes[i]) == key
  {
    if |nodes| > 0 {
      var init, last := nodes[..|nodes| - 1], nodes[|nodes| - 1];
      ScrapeKeys(host, init);
      assert nodes == init + [last];
      KeysAfterStep(host, init, last);
    }
  }

  /** One more node adds exactly its own key, if it is retained. */
  lemma KeysAfterStep(host: string, init: seq<Node>, last: Node)
    requires Scrape(host, init + [last]).Ok?
    requires forall key :: key in Scrape(host, init).value <==>
               exists i :: 0 <= i < |init| && Retained(init[i]) && KeyOf(init[i]) == key
    ensures forall key :: key in Scrape(host, init + [last]).value <==>
              exists i :: 0 <= i < |init + [last]| && Retained((init + [last])[i]) && KeyOf((init + [last])[i]) == key
  {
    var nodes := init + [last];
    assert nodes[..|nodes| - 1] == init;
    forall key | key in Scrape(host, nodes).value
      ensures exists i :: 0 <= i < |nodes| && Retained(nodes[i]) && KeyOf(nodes[i]) == key
    {
      if !(Retained(last) && KeyOf(last) == key) {
        var i :| 0 <= i < |init| && Retained(init[i]) && KeyOf(init[i]) == key;
        assert nodes[i] == init[i];
      } else {
        assert nodes[|nodes| - 1] == last;
      }
    }
    forall key | exists i :: 0 <= i < |nodes| && Retained(nodes[i]) && KeyOf(nodes[i]) == key
      ensures key in Scrape(host, nodes).value
    {
      var i :| 0 <= i < |nodes| && Retained(nodes[i]) && KeyOf(nodes[i]) == key;
      if i < |init| {
        assert init[i] == nodes[i];
      }
    }
  }

  /** When two retained nodes derive the same key, the later one's URL is the
      one kept: every entry is `host + href` of the last retained node with
      that key. */
  lemma {:induction false} ScrapeLastWins(host: string, nodes: seq<Node>)
    requires Scrape(host, nodes).Ok?
    decreases |nodes|
    ensures forall key :: key in Scrape(host, nodes).value ==>
              exists i :: LastWith(nodes, key, i) && Scrape(host, nodes).value[key] == host + nodes[i].href
  {
    if |nodes| > 0 {
      var init, last := nodes[..|nodes| - 1], nodes[|nodes| - 1];
      var m := Scrape(host, init).value;
      ScrapeLastWins(host, init);
      assert nodes == init + [last];
      forall key | key in Scrape(host, nodes).value
        ensures exists i :: LastWith(nodes, key, i) && Scrape(host, nodes).value[key] == host + nodes[i].href
      {
        if Retained(last) && KeyOf(last) == key {
          assert LastWith(nodes, key, |nodes| - 1);
        } else {
          var i :| LastWith(init, key, i) && m[key] == host + init[i].href;
          LastWithExtend(init, last, key, i);
        }
      }
    }
  }

  /** A node that does not derive `key` leaves the last one that does in place. */
  lemma LastWithExtend(init: seq<Node>, last: Node, key: string, i: int)
    requires LastWith(init, key, i)
    requires !(Retained(last) && KeyOf(last) == key)
    ensures LastWith(init + [last], key, i)
    ensures (init + [last])[i] == init[i]
  {
    var nodes := init + [last];
    forall j | i < j < |nodes| && Retained(nodes[j])
      ensures KeyOf(nodes[j]) != key
    {
      if j < |init| {
        assert nodes[j] == init[j];
      }
    }
  }

  /** Every URL in the result starts with the host, so the guard accepts it. */
  lemma ScrapeValuesTrusted(host: string, nodes: seq<Node>)
    requires Scrape(host, nodes).Ok?
    ensures forall key :: key in Scrape(host, nodes).value ==>
              Guard.CheckInput(host, Scrape(host, nodes).value[key])
  {
    ScrapeLastWins(host, nodes);
    forall key | key in Scrape(host, nodes).value
      ensures Guard.CheckInput(host, Scrape(host, nodes).value[key])
    {
      var i :| LastWith(nodes, key, i) && Scrape(host, nodes).value[key] == host + nodes[i].href;
      Guard.HostPrefixedAccepted(host, nodes[i].href);
    }
  }

  /** A page without any grade-table link yields an empty map. */
  lemma {:induction false} ScrapeNoEcts(host: string, nodes: seq<Node>)
    requires forall i :: 0 <= i < |nodes| ==> !IsEcts(nodes[i])
    decreases |nodes|
    ensures Scrape(host, nodes) == Ok(map[])
  {
    if |nodes| > 0 {
      ScrapeNoEcts(host, nodes[..|nodes| - 1]);
    }
  }

  /** A key shorter than five characters is never excluded: every code has five. */
  lemma ShortKeyKept(key: string)
    requires |key| < 5
    ensures !Excluded(key)
  {
    assert forall c :: c in EXCLUDE_SEMESTERS ==> |c| == 5;
  }

  /** A key is excluded exactly when its first five characters are a legacy code. */
  lemma ExcludedByPrefix(key: string, code: string)
    requires code in EXCLUDE_SEMESTERS
    ensures code <= key ==> Excluded(key)
    ensures Excluded(key) ==> exists c :: c in EXCLUDE_SEMESTERS && c <= key
  {
    assert forall c :: c in EXCLUDE_SEMESTERS ==> |c| == 5;
    if code <= key {
      assert Semester(key) == key[..5] == code;
    }
  }

  /** The title of a grade-table link: the marker, the key and `.pdf`. */
  function TitleOf(key: string): string {
    Dataloader.MARKER + key + Dataloader.SUFFIX
  }

  /** Two grade-table links, the first with a current key and the second with
      a legacy one: only the first is kept, at `host + href`. */
  lemma {:induction false} ScrapeCurrentAndLegacy(host: string, keep: string, drop: string, h1: string, h2: string)
    requires '.' !in keep && !Contains(keep, Dataloader.MARKER) && !Excluded(keep)
    requires '.' !in drop && !Contains(drop, Dataloader.MARKER) && Excluded(drop)
    ensures Scrape(host, [Node(TitleOf(keep), h1), Node(TitleOf(drop), h2)]) == Ok(map[keep := host + h1])
  {
    var n1, n2 := Node(TitleOf(keep), h1), Node(TitleOf(drop), h2);
    var nodes := [n1, n2];
    Dataloader.StudyOfUsualShape("", keep, "");
    Dataloader.StudyOfUsualShape("", drop, "");
    assert "" + Dataloader.MARKER + keep + Dataloader.SUFFIX + "" == TitleOf(keep);
    assert "" + Dataloader.MARKER + drop + Dataloader.SUFFIX + "" == TitleOf(drop);
    EctsTitle(keep);
    EctsTitle(drop);
    assert Retained(n1) && KeyOf(n1) == keep;
    assert !Retained(n2) && !Broken(n2);
    assert nodes[..1] == [n1] && [n1][..0] == [];
    assert Scrape(host, []) == Ok(map[]);
    assert Scrape(host, [n1]) == Step(host, map[], n1) == Ok(map[keep := host + h1]);
    assert Scrape(host, nodes) == Step(host, map[keep := host + h1], n2);
  }

  /** A title built from the marker starts with `ECTS`. */
  lemma EctsTitle(key: string)
    ensures ECTS <= TitleOf(key)
  {
    assert TitleOf(key)[..4] == Dataloader.MARKER[..4] == ECTS;
  }

  /** The scraper's example: a winter 2022/23 cohort is kept and a summer
      2022 cohort, which uses the older scheme, is dropped. */
  lemma ScrapeExample(host: string, keep: string, drop: string, h1: string, h2: string)
    requires keep == "WS22_23_BA_INFO_DE" && drop == "SS22_BA_INFO_DE"
    ensures Scrape(host, [Node(TitleOf(keep), h1), Node(TitleOf(drop), h2)]) == Ok(map[keep := host + h1])
  {
    ExampleKeys(keep, drop);
    ScrapeCurrentAndLegacy(host, keep, drop, h1, h2);
  }

  /** `WS22_…` is a current key and `SS22_…` a legacy one. */
  lemma ExampleKeys(keep: string, drop: string)
    requires keep == "WS22_23_BA_INFO_DE" && drop == "SS22_BA_INFO_DE"
    ensures '.' !in keep && !Contains(keep, Dataloader.MARKER) && !Excluded(keep)
    ensures '.' !in drop && !Contains(drop, Dataloader.MARKER) && Excluded(drop)
  {
    CurrentKey(keep);
    LegacyKey(drop);
  }

  /** A winter 2022/23 key has no `.` or marker and is not excluded. */
  lemma CurrentKey(keep: string)
    requires keep == "WS22_23_BA_INFO_DE"
    ensures '.' !in keep && !Contains(keep, Dataloader.MARKER) && !Excluded(keep)
  {
    assert keep == "WS22_" + "23_BA_INFO_DE";
    MissingCharacter(keep, Dataloader.MARKER, 1);
    assert Semester(keep) == "WS22_";
    WinterTwentyTwoCurrent();
  }

  /** A summer 2022 key has no `.` or marker and is excluded. */
  lemma LegacyKey(drop: string)
    requires drop == "SS22_BA_INFO_DE"
    ensures '.' !in drop && !Contains(drop, Dataloader.MARKER) && Excluded(drop)
  {
    assert drop == "SS22_" + "BA_INFO_DE";
    MissingCharacter(drop, Dataloader.MARKER, 1);
    ExcludedByPrefix(drop, "SS22_");
  }

  /** No legacy code is `WS22_`. */
  lemma WinterTwentyTwoCurrent()
    ensures "WS22_" !in EXCLUDE_SEMESTERS
  {
    var w := "WS22_";
    forall k | 0 <= k < |EXCLUDE_SEMESTERS|
      ensures EXCLUDE_SEMESTERS[k] != w
    {
      var c := EXCLUDE_SEMESTERS[k];
      assert c[0] != w[0] || c[2] != w[2] || c[3] != w[3];
    }
  }
}
