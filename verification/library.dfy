/**
 * The public library: reordering the ids a search returns, choosing which
 * search index supplies them, reading the id list the semantic-search
 * service answers with, and the page of one published paper.
 */
module Library {
  import opened Wrappers
  import Text
  import opened Papers

  // ---------------------------------------------------------------- reverseArray

  /** The elements of `s` last to first. */
  function Reversed(s: seq<int>): (r: seq<int>)
    ensures |r| == |s|
    ensures forall i :: 0 <= i < |s| ==> r[i] == s[|s| - 1 - i]
    decreases |s|
  {
    if s == [] then [] else [s[|s| - 1]] + Reversed(s[..|s| - 1])
  }

  /** Reversing twice gives the sequence back. */
  lemma ReversedTwice(s: seq<int>)
    ensures Reversed(Reversed(s)) == s
  {
    assert forall i :: 0 <= i < |s| ==> Reversed(Reversed(s))[i] == s[i];
  }

  /** Reversal only moves elements. */
  lemma {:induction false} ReversedPermutes(s: seq<int>)
    ensures multiset(Reversed(s)) == multiset(s)
    decreases |s|
  {
    if s != [] {
      ReversedPermutes(s[..|s| - 1]);
      assert s == s[..|s| - 1] + [s[|s| - 1]];
    }
  }

  /**
   * `reverseArray`: the slice is reversed in place, swapping from both ends
   * towards the middle, and the same slice is returned.
   */
  method ReverseArray(a: array<int>) returns (r: array<int>)
    modifies a
    ensures r == a && a[..] == Reversed(old(a[..]))
  {
    if a.Length == 0 {
      assert a[..] == Reversed(old(a[..]));
      return a;
    }
    var i, j := 0, a.Length - 1;
    while i < j
      invariant 0 <= i <= a.Length && i + j == a.Length - 1
      invariant forall k :: 0 <= k < i || j < k < a.Length ==> a[k] == old(a[a.Length - 1 - k])
      invariant forall k :: i <= k <= j ==> a[k] == old(a[k])
    {
      a[i], a[j] := a[j], a[i];
      i, j := i + 1, j - 1;
    }
    return a;
  }

  // ---------------------------------------------------------------- OrderArray

  /** `orderMap`: every value of `order` mapped to the last index holding it. */
  function Positions(order: seq<int>): (m: map<int, int>)
    ensures forall v :: v in m <==> v in order
    ensures forall v :: v in m ==> 0 <= m[v] < |order| && order[m[v]] == v
    ensures forall v, k :: v in m && m[v] < k < |order| ==> order[k] != v
    decreases |order|
  {
    if order == [] then map[]
    else
      var n := |order| - 1;
      var init := order[..n];
      assert forall k :: 0 <= k < n ==> init[k] == order[k];
      Positions(init)[order[n] := n]
  }

  /** The sort key of a value: its entry in the position map, or Go's zero value 0 when it has none. */
  function Key(m: map<int, int>, v: int): int {
    if v in m then m[v] else 0
  }

  /** A value's key is the last index holding it in `order`, and 0 for a value `order` lacks. */
  lemma KeyOfValue(order: seq<int>, v: int)
    ensures v !in order ==> Key(Positions(order), v) == 0
    ensures v in order ==> var p := Key(Positions(order), v);
      0 <= p < |order| && order[p] == v && forall k :: p < k < |order| ==> order[k] != v
  {
  }

  /** Where stable insertion puts `x` into `t`: behind every element whose key is not larger. */
  function InsertPos(t: seq<int>, x: int, m: map<int, int>): (j: nat)
    ensures j <= |t|
    ensures forall k :: j <= k < |t| ==> Key(m, t[k]) > Key(m, x)
    ensures j == 0 || Key(m, t[j - 1]) <= Key(m, x)
    decreases |t|
  {
    if t == [] then 0
    else if Key(m, t[|t| - 1]) <= Key(m, x) then |t|
    else InsertPos(t[..|t| - 1], x, m)
  }

  /** The insertion point is the only place scanning from the right can stop. */
  lemma {:induction false} InsertPosUnique(t: seq<int>, x: int, m: map<int, int>, j: int)
    requires 0 <= j <= |t|
    requires forall k :: j <= k < |t| ==> Key(m, t[k]) > Key(m, x)
    requires j == 0 || Key(m, t[j - 1]) <= Key(m, x)
    ensures InsertPos(t, x, m) == j
    decreases |t|
  {
    if j < |t| {
      InsertPosUnique(t[..|t| - 1], x, m, j);
    }
  }

  function InsertByKey(t: seq<int>, x: int, m: map<int, int>): seq<int> {
    var j := InsertPos(t, x, m);
    t[..j] + [x] + t[j..]
  }

  /** What `sort.SliceStable` on the key leaves: each element inserted, in turn, behind its equals. */
  function SortByKey(s: seq<int>, m: map<int, int>): seq<int>
    decreases |s|
  {
    if s == [] then [] else InsertByKey(SortByKey(s[..|s| - 1], m), s[|s| - 1], m)
  }

  predicate SortedByKey(s: seq<int>, m: map<int, int>) {
    forall i, j :: 0 <= i < j < |s| ==> Key(m, s[i]) <= Key(m, s[j])
  }

  /** The elements of `s` whose key is `k`, in their order in `s`. */
  function WithKey(s: seq<int>, m: map<int, int>, k: int): seq<int>
    decreases |s|
  {
    if s == [] then []
    else if Key(m, s[|s| - 1]) == k then WithKey(s[..|s| - 1], m, k) + [s[|s| - 1]]
    else WithKey(s[..|s| - 1], m, k)
  }

  lemma {:induction false} WithKeyAppend(a: seq<int>, b: seq<int>, m: map<int, int>, k: int)
    ensures WithKey(a + b, m, k) == WithKey(a, m, k) + WithKey(b, m, k)
    decreases |b|
  {
    if b != [] {
      var b' := b[..|b| - 1];
      assert (a + b)[..|a + b| - 1] == a + b';
      assert (a + b)[|a + b| - 1] == b[|b| - 1];
      WithKeyAppend(a, b', m, k);
    } else {
      assert a + b == a;
    }
  }

  /** Elements with other keys add nothing. */
  lemma {:induction false} WithKeySkip(a: seq<int>, b: seq<int>, m: map<int, int>, k: int)
    requires forall i :: 0 <= i < |b| ==> Key(m, b[i]) != k
    ensures WithKey(a + b, m, k) == WithKey(a, m, k)
    decreases |b|
  {
    if b != [] {
      var b' := b[..|b| - 1];
      assert (a + b)[..|a + b| - 1] == a + b';
      assert (a + b)[|a + b| - 1] == b[|b| - 1];
      WithKeySkip(a, b', m, k);
    } else {
      assert a + b == a;
    }
  }

  lemma InsertPermutes(t: seq<int>, x: int, m: map<int, int>)
    ensures multiset(InsertByKey(t, x, m)) == multiset(t) + multiset{x}
  {
    var j := InsertPos(t, x, m);
    assert t == t[..j] + t[j..];
  }

  lemma InsertSorted(t: seq<int>, x: int, m: map<int, int>)
    requires SortedByKey(t, m)
    ensures SortedByKey(InsertByKey(t, x, m), m)
  {
    var j := InsertPos(t, x, m);
    var r := InsertByKey(t, x, m);
    forall p, q | 0 <= p < q < |r| ensures Key(m, r[p]) <= Key(m, r[q]) {
      if p < j && q == j {
        assert Key(m, t[p]) <= Key(m, t[j - 1]);
      } else if p < j && q > j {
        assert Key(m, t[p]) <= Key(m, t[q - 1]);
      }
    }
  }

  lemma InsertKeepsEquals(t: seq<int>, x: int, m: map<int, int>, k: int)
    ensures WithKey(InsertByKey(t, x, m), m, k) == if Key(m, x) == k then WithKey(t, m, k) + [x] else WithKey(t, m, k)
  {
    var j := InsertPos(t, x, m);
    var lo, hi := t[..j], t[j..];
    assert t == lo + hi;
    assert InsertByKey(t, x, m) == (lo + [x]) + hi;
    assert (lo + [x])[..|lo + [x]| - 1] == lo;
    if Key(m, x) == k {
      WithKeySkip(lo + [x], hi, m, k);
      WithKeySkip(lo, hi, m, k);
    } else {
      WithKeyAppend(lo + [x], hi, m, k);
      WithKeyAppend(lo, hi, m, k);
    }
  }

  /**
   * The stable sort is a permutation, ordered by key, and keeps the
   * relative order of elements with equal keys.
   */
  lemma {:induction false} SortByKeySpec(s: seq<int>, m: map<int, int>)
    ensures multiset(SortByKey(s, m)) == multiset(s)
    ensures SortedByKey(SortByKey(s, m), m)
    ensures forall k :: WithKey(SortByKey(s, m), m, k) == WithKey(s, m, k)
    decreases |s|
  {
    if s != [] {
      var init, x := s[..|s| - 1], s[|s| - 1];
      SortByKeySpec(init, m);
      InsertPermutes(SortByKey(init, m), x, m);
      InsertSorted(SortByKey(init, m), x, m);
      assert s == init + [x];
      forall k ensures WithKey(SortByKey(s, m), m, k) == WithKey(s, m, k) {
        InsertKeepsEquals(SortByKey(init, m), x, m, k);
      }
    }
  }

  /** No two elements of `r` stand in the opposite order to the one they have in `order`. */
  predicate FollowsBaseline(r: seq<int>, order: seq<int>) {
    forall i, j, p, q :: 0 <= i < j < |r| && 0 <= p < |order| && 0 <= q < |order| && r[i] == order[p] && r[j] == order[q] ==> p <= q
  }

  /**
   * With a baseline of distinct ids that holds every element, the result
   * follows the baseline: an element placed earlier never sits later in it.
   */
  lemma FollowsOrder(arr: seq<int>, order: seq<int>)
    requires forall p, q :: 0 <= p < q < |order| ==> order[p] != order[q]
    ensures FollowsBaseline(SortByKey(arr, Positions(order)), order)
  {
    var m := Positions(order);
    var r := SortByKey(arr, m);
    SortByKeySpec(arr, m);
    forall i, j, p, q | 0 <= i < j < |r| && 0 <= p < |order| && 0 <= q < |order| && r[i] == order[p] && r[j] == order[q]
      ensures p <= q
    {
      assert Key(m, r[i]) <= Key(m, r[j]);
      assert m[order[p]] == p && m[order[q]] == q;
    }
  }

  /** The position map `OrderArray` builds, one entry per baseline index in turn. */
  method BuildPositions(order: seq<int>) returns (m: map<int, int>)
    ensures m == Positions(order)
  {
    m := map[];
    var i := 0;
    while i < |order|
      invariant 0 <= i <= |order| && m == Positions(order[..i])
    {
      assert order[..i + 1][..i] == order[..i];
      m := m[order[i] := i];
      i := i + 1;
    }
    assert order[..i] == order;
  }

  /** One insertion step: `a[i]` moves left past every larger key before it. */
  method InsertStep(a: array<int>, i: int, m: map<int, int>)
    requires 0 <= i < a.Length
    modifies a
    ensures a[..i + 1] == InsertByKey(old(a[..i]), old(a[i]), m)
    ensures a[i + 1..] == old(a[i + 1..])
  {
    ghost var t := a[..i];
    var x := a[i];
    var j := i;
    while j > 0 && Key(m, a[j - 1]) > Key(m, x)
      invariant 0 <= j <= i
      invariant forall k :: 0 <= k < j ==> a[k] == t[k]
      invariant forall k :: j < k <= i ==> a[k] == t[k - 1]
      invariant forall k :: i < k < a.Length ==> a[k] == old(a[k])
      invariant forall k :: j <= k < i ==> Key(m, t[k]) > Key(m, x)
    {
      a[j] := a[j - 1];
      j := j - 1;
    }
    a[j] := x;
    assert a[..i + 1] == t[..j] + [x] + t[j..] by {
      assert forall k :: 0 <= k <= i ==> a[k] == (t[..j] + [x] + t[j..])[k];
    }
    InsertPosUnique(t, x, m, j);
  }

  /**
   * `OrderArray`: the slice sorted stably, in place, by each element's last
   * position in `order`.  Go's stable sort and this insertion sort leave the
   * same result, as a stable sort's output is fixed by the keys.
   */
  method OrderArray(a: array<int>, order: seq<int>) returns (r: array<int>)
    modifies a
    ensures r == a && a[..] == SortByKey(old(a[..]), Positions(order))
  {
    var m := BuildPositions(order);
    var i := 0;
    while i < a.Length
      invariant 0 <= i <= a.Length
      invariant a[..i] == SortByKey(old(a[..])[..i], m)
      invariant a[i..] == old(a[..])[i..]
    {
      assert old(a[..])[..i + 1][..i] == old(a[..])[..i];
      InsertStep(a, i, m);
      i := i + 1;
    }
    assert old(a[..])[..i] == old(a[..]);
    return a;
  }

  /**
   * The ids the search returns: with a year filter, as the database ordered
   * them; otherwise, when the search index supplied a baseline, reordered
   * to follow it.
   */
  method FinalOrder(paperIds: array<int>, yearFilter: seq<string>, baseline: seq<int>) returns (r: array<int>)
    modifies paperIds
    ensures r == paperIds
    ensures |yearFilter| > 0 || baseline == [] ==> paperIds[..] == old(paperIds[..])
    ensures |yearFilter| == 0 && baseline != [] ==> paperIds[..] == SortByKey(old(paperIds[..]), Positions(baseline))
  {
    if |yearFilter| > 0 || baseline == [] {
      return paperIds;
    }
    r := OrderArray(paperIds, baseline);
  }

  // ---------------------------------------------------------------- search-source fallback

  /**
   * The baseline ids: none without a search term; otherwise the paper
   * index's hits, or if it has none the full-text index's, or if it has
   * none the clean-text index's.  `None` is a failed index query, which
   * fails the search.
   */
  function SearchBaseline(search: string, research: Option<seq<int>>, fulltext: Option<seq<int>>,
                          cleantext: Option<seq<int>>): (r: Option<seq<int>>)
    ensures search == "" ==> r == Some([])
    ensures search != "" && research.Some? && research.value != [] ==> r == research
    ensures search != "" && research == Some([]) && fulltext.Some? && fulltext.value != [] ==> r == fulltext
    ensures search != "" && research == Some([]) && fulltext == Some([]) ==> r == cleantext
    ensures r.None? <==> search != "" && (research.None? || (research == Some([]) && (fulltext.None? || (fulltext == Some([]) && cleantext.None?))))
  {
    if search == "" then Some([])
    else if research.None? then None
    else if research.value != [] then research
    else if fulltext.None? then None
    else if fulltext.value != [] then fulltext
    else cleantext
  }

  /** A later index is consulted only when every earlier one answered with no hits. */
  lemma FallbackStopsAtFirstHit(search: string, research: seq<int>, f1: Option<seq<int>>, c1: Option<seq<int>>,
                                f2: Option<seq<int>>, c2: Option<seq<int>>)
    requires search != "" && research != []
    ensures SearchBaseline(search, Some(research), f1, c1) == SearchBaseline(search, Some(research), f2, c2) == Some(research)
  {
  }

  // ---------------------------------------------------------------- papers_id

  /** The JSON values the semantic-search reply's `papers_id` may hold. */
  datatype Json = JNumber(n: real) | JString(s: string) | JArray(items: seq<Json>) | JOther

  /** Go's `int(f)`: the fraction is dropped, rounding toward zero. */
  function Truncate(x: real): (r: int)
    ensures x >= 0.0 ==> 0 <= r && r as real <= x < r as real + 1.0
    ensures x < 0.0 ==> r <= 0 && r as real - 1.0 < x <= r as real
  {
    if x >= 0.0 then x.Floor else -((-x).Floor)
  }

  /** The numbers of an array, truncated, in order; other entries are skipped. */
  function NumbersOf(items: seq<Json>): (r: seq<int>)
    ensures |r| <= |items|
    decreases |items|
  {
    if items == [] then []
    else NumbersOf(items[..|items| - 1]) + (match items[|items| - 1] case JNumber(n) => [Truncate(n)] case _ => [])
  }

  /** The comma-separated parts of a string, each trimmed of white space. */
  function TrimmedParts(s: string): (r: seq<string>)
    ensures |r| == |Text.Split(s, ',')|
    ensures forall i :: 0 <= i < |r| ==> r[i] == Text.TrimSpace(Text.Split(s, ',')[i])
  {
    var parts := Text.Split(s, ',');
    seq(|parts|, i requires 0 <= i < |parts| => Text.TrimSpace(parts[i]))
  }

  /** The ids of a `papers_id` field: an array's numbers, or a string's parts that parse; nothing otherwise. */
  function PaperIdsOf(field: Option<Json>): seq<int> {
    match field
    case Some(JArray(items)) => NumbersOf(items)
    case Some(JString(s)) => Text.IntsOf(TrimmedParts(s))
    case _ => []
  }

  /** The reply's ids, read one entry at a time as the handler does. */
  method ParsePaperIds(field: Option<Json>) returns (ids: seq<int>)
    ensures ids == PaperIdsOf(field)
  {
    ids := [];
    if field.Some? && field.value.JArray? {
      ids := ArrayIds(field.value.items);
    } else if field.Some? && field.value.JString? {
      ids := StringIds(field.value.s);
    }
  }

  method ArrayIds(items: seq<Json>) returns (ids: seq<int>)
    ensures ids == NumbersOf(items)
  {
    ids := [];
    var i := 0;
    while i < |items|
      invariant 0 <= i <= |items| && ids == NumbersOf(items[..i])
    {
      assert items[..i + 1][..i] == items[..i];
      if items[i].JNumber? {
        ids := ids + [Truncate(items[i].n)];
      }
      i := i + 1;
    }
    assert items[..i] == items;
  }

  method StringIds(s: string) returns (ids: seq<int>)
    ensures ids == Text.IntsOf(TrimmedParts(s))
  {
    ids := [];
    var parts := Text.Split(s, ',');
    ghost var trimmed := TrimmedParts(s);
    var i := 0;
    while i < |parts|
      invariant 0 <= i <= |parts| && ids == Text.IntsOf(trimmed[..i])
    {
      assert trimmed[..i + 1][..i] == trimmed[..i];
      var id := Text.Atoi(Text.TrimSpace(parts[i]));
      if id.Some? {
        ids := ids + [id.value];
      }
      i := i + 1;
    }
    assert trimmed[..i] == trimmed;
  }

  /** An id comes from the string exactly when some trimmed part parses to it. */
  lemma StringIdsMembership(s: string, n: int)
    ensures n in PaperIdsOf(Some(JString(s))) <==>
      exists k :: 0 <= k < |Text.Split(s, ',')| && Text.Atoi(Text.TrimSpace(Text.Split(s, ',')[k])) == Some(n)
  {
    var t := TrimmedParts(s);
    Text.IntsOfMembership(t, n);
    assert forall k :: 0 <= k < |t| ==> t[k] == Text.TrimSpace(Text.Split(s, ',')[k]);
  }

  lemma {:induction false} IntsOfAppend(a: seq<string>, b: seq<string>)
    ensures Text.IntsOf(a + b) == Text.IntsOf(a) + Text.IntsOf(b)
    decreases |b|
  {
    if b != [] {
      var b' := b[..|b| - 1];
      assert (a + b)[..|a + b| - 1] == a + b';
      assert (a + b)[|a + b| - 1] == b[|b| - 1];
      IntsOfAppend(a, b');
    } else {
      assert a + b == a;
    }
  }

  /** Reading keeps order: the ids of `a,b` are those of `a` followed by those of `b`. */
  lemma StringIdsInOrder(a: string, b: string)
    requires ',' !in a
    ensures PaperIdsOf(Some(JString(a + [','] + b))) == PaperIdsOf(Some(JString(a))) + PaperIdsOf(Some(JString(b)))
  {
    var t, ta, tb := TrimmedParts(a + [','] + b), TrimmedParts(a), TrimmedParts(b);
    assert Text.IntsOf(t) == Text.IntsOf(ta) + Text.IntsOf(tb) by {
      assert t == ta + tb by {
        Text.SplitNoSeparator(a, ',');
        Text.SplitConcat(a, ',', b);
        forall i | 0 <= i < |t| ensures t[i] == (ta + tb)[i] {
          if i > 0 {
            assert Text.Split(a + [','] + b, ',')[i] == Text.Split(b, ',')[i - 1];
          }
        }
      }
      IntsOfAppend(ta, tb);
    }
  }

  /** Array reading keeps order too, and skips everything that is not a number. */
  lemma {:induction false} ArrayIdsInOrder(a: seq<Json>, b: seq<Json>)
    ensures NumbersOf(a + b) == NumbersOf(a) + NumbersOf(b)
    decreases |b|
  {
    if b != [] {
      var b' := b[..|b| - 1];
      assert (a + b)[..|a + b| - 1] == a + b';
      assert (a + b)[|a + b| - 1] == b[|b| - 1];
      ArrayIdsInOrder(a, b');
    } else {
      assert a + b == a;
    }
  }

  // ---------------------------------------------------------------- paper page

  /**
   * Why `HandleGetIndividualPaperPage` refuses, or OK: the public id is
   * given and names a paper (`found`) whose status is exactly "published"
   * and for which a full text is found under `how`.  A lookup that finds
   * nothing fails as a server error.
   */
  function PageVerdict(papers: map<int, Paper>, fulltexts: map<int, string>, publicId: string, found: Option<int>,
                       how: TextLookup): (code: int)
    requires found.Some? ==> found.value in papers
    ensures code in {OK, BAD_REQUEST, NOT_FOUND, INTERNAL_ERROR}
    ensures code == OK ==> publicId != "" && found.Some? && papers[found.value].status == PUBLISHED
    ensures code == OK <==> publicId != "" && found.Some? && papers[found.value].status == PUBLISHED && TextOf(papers, fulltexts, found.value, how).Some?
    ensures code == NOT_FOUND <==> publicId != "" && found.Some? && papers[found.value].status != PUBLISHED
  {
    if publicId == "" then BAD_REQUEST
    else if found.None? then INTERNAL_ERROR
    else if papers[found.value].status != PUBLISHED then NOT_FOUND
    else if TextOf(papers, fulltexts, found.value, how).None? then INTERNAL_ERROR
    else OK
  }

  /** `HandleGetIndividualPaperPage`: a published paper and its own full text. */
  method HandleGetIndividualPaperPage(papers: map<int, Paper>, fulltexts: map<int, string>, publicId: string)
    returns (code: int, paperId: Option<int>, content: Option<string>)
    ensures code == PageVerdict(papers, fulltexts, publicId, PaperByPublicId(papers, publicId), ByFulltextId)
    ensures code == OK ==> paperId == PaperByPublicId(papers, publicId)
    ensures code == OK ==> paperId.Some? && content == FulltextOf(papers, fulltexts, paperId.value)
    ensures code != OK ==> paperId.None? && content.None?
  {
    if publicId == "" {
      return BAD_REQUEST, None, None;
    }
    var found := FindByPublicId(papers, publicId);
    code := PageVerdict(papers, fulltexts, publicId, found, ByFulltextId);
    if code != OK {
      return code, None, None;
    }
    paperId := found;
    content := FulltextOf(papers, fulltexts, found.value);
  }

  /** `HandleGetIndividualPaperPage` as written: the text shown is the row whose id is the paper's id. */
  method HandleGetIndividualPaperPageAsWritten(papers: map<int, Paper>, fulltexts: map<int, string>, publicId: string)
    returns (code: int, paperId: Option<int>, content: Option<string>)
    ensures code == PageVerdict(papers, fulltexts, publicId, PaperByPublicId(papers, publicId), ByPaperId)
    ensures code == OK ==> paperId == PaperByPublicId(papers, publicId)
    ensures code == OK ==> paperId.Some? && content == FulltextAsWritten(fulltexts, paperId.value)
    ensures code != OK ==> paperId.None? && content.None?
  {
    if publicId == "" {
      return BAD_REQUEST, None, None;
    }
    var found := FindByPublicId(papers, publicId);
    code := PageVerdict(papers, fulltexts, publicId, found, ByPaperId);
    if code != OK {
      return code, None, None;
    }
    paperId := found;
    content := FulltextAsWritten(fulltexts, found.value);
  }

  /**
   * As written, the page of a published paper whose text is row 2 fails
   * with a server error when there is no row 1; the corrected page shows it.
   */
  lemma PageAsWrittenMissesOwnText()
    ensures var p := Paper("p", 1, "A", "", "", "", NO_ADVISOR, "", PUBLISHED, NO_REASON, 2, 2, 7, 0, 0, Unprocessed);
      var papers := map[1 := p];
      var fulltexts := map[2 := "text of paper 1"];
      PageVerdict(papers, fulltexts, "p", Some(1), ByPaperId) == INTERNAL_ERROR
      && PageVerdict(papers, fulltexts, "p", Some(1), ByFulltextId) == OK
  {
    Papers.FulltextAsWrittenMissesOwnText();
  }

  /** Unpublishing a paper takes its page down, however its text is looked up. */
  lemma UnpublishHidesPage(papers: map<int, Paper>, fulltexts: map<int, string>, publicId: string, how: TextLookup)
    requires publicId != "" && PaperByPublicId(papers, publicId).Some?
    ensures var id := PaperByPublicId(papers, publicId).value;
      var hidden := papers[id := papers[id].(status := UNPUBLISHED)];
      PaperByPublicId(hidden, publicId) == Some(id)
      && PageVerdict(hidden, fulltexts, publicId, Some(id), how) == NOT_FOUND
  {
    var id := PaperByPublicId(papers, publicId).value;
    var hidden := papers[id := papers[id].(status := UNPUBLISHED)];
    assert IdsWithPublicId(hidden, publicId) == IdsWithPublicId(papers, publicId);
  }

  // ---------------------------------------------------------------- search results

  /** A search result's summary; departments and research type come from joins not modelled. */
  datatype PaperInfo = PaperInfo(id: int, publicId: string, title: string, author: string, publishedAt: int)

  function InfoOf(papers: map<int, Paper>, id: int): PaperInfo
    requires id in papers
  {
    var p := papers[id];
    PaperInfo(id, p.publicId, p.title, p.author, p.publishedAt)
  }

  /** The summaries of the ids that name papers, in order; an id whose lookup fails is skipped. */
  function InfosOf(papers: map<int, Paper>, ids: seq<int>): (r: seq<PaperInfo>)
    ensures |r| <= |ids|
    ensures forall k :: 0 <= k < |r| ==> r[k].id in ids && r[k].id in papers && r[k] == InfoOf(papers, r[k].id)
    decreases |ids|
  {
    if ids == [] then []
    else
      var last := ids[|ids| - 1];
      InfosOf(papers, ids[..|ids| - 1]) + (if last in papers then [InfoOf(papers, last)] else [])
  }

  /** `HandleResearchPaperSearch`'s loop: one summary per id that names a paper. */
  method CollectInfos(papers: map<int, Paper>, ids: seq<int>) returns (infos: seq<PaperInfo>)
    ensures infos == InfosOf(papers, ids)
  {
    infos := [];
    var i := 0;
    while i < |ids|
      invariant 0 <= i <= |ids| && infos == InfosOf(papers, ids[..i])
    {
      assert ids[..i + 1][..i] == ids[..i];
      if ids[i] in papers {
        infos := infos + [InfoOf(papers, ids[i])];
      }
      i := i + 1;
    }
    assert ids[..i] == ids;
  }

  /** Every id that names a paper gets its summary. */
  lemma {:induction false} InfosComplete(papers: map<int, Paper>, ids: seq<int>, id: int)
    requires id in ids && id in papers
    ensures InfoOf(papers, id) in InfosOf(papers, ids)
    decreases |ids|
  {
    if ids[|ids| - 1] != id {
      assert id in ids[..|ids| - 1] by {
        var k :| 0 <= k < |ids| && ids[k] == id;
        assert ids[..|ids| - 1][k] == id;
      }
      InfosComplete(papers, ids[..|ids| - 1], id);
    }
  }
}
