/** Topics: the links of a document are the source of truth, and every chunk carries a copy. */
module Topics {
  import opened Common

  type TopicId = nat
  type DocId = nat
  type ChunkId = nat
  type JobId = nat
  type BatchId = nat

  const UNCATEGORIZED_TOPIC_NAME := "Uncategorized"

  datatype Chunk = Chunk(doc: DocId, topics: set<TopicId>)

  /** The topic ids staged in a job's result; `open` while a later confirm may use them. */
  datatype Draft = Draft(open: bool, suggested: seq<TopicId>)

  /** `filed` are the documents some confirm has filed under topics. */
  datatype Catalog = Catalog(topics: map<TopicId, string>, links: set<(DocId, TopicId)>, chunks: map<ChunkId, Chunk>,
                             drafts: map<JobId, Draft>, hints: map<BatchId, seq<TopicId>>, filed: set<DocId>,
                             nextTopic: TopicId, nextChunk: ChunkId)

  /* ---- Names, compared the way `citext` compares them ---- */

  predicate SameName(a: string, b: string) {
    Lower(a) == Lower(b)
  }

  predicate UniqueNames(topics: map<TopicId, string>) {
    forall s, t :: s in topics && t in topics && SameName(topics[s], topics[t]) ==> s == t
  }

  ghost function Find(topics: map<TopicId, string>, name: string): (r: Option<TopicId>)
    ensures r.None? <==> forall t :: t in topics ==> !SameName(topics[t], name)
    ensures r.Some? ==> r.value in topics && SameName(topics[r.value], name)
  {
    if t :| t in topics && SameName(topics[t], name) then Some(t) else None
  }

  /** Get or create: the table afterwards, and the topic. */
  ghost function WithTopic(c: Catalog, name: string): Catalog {
    if Find(c.topics, Strip(name)).Some? then c
    else c.(topics := c.topics[c.nextTopic := Strip(name)], nextTopic := c.nextTopic + 1)
  }

  ghost function TopicNamed(c: Catalog, name: string): TopicId {
    Find(c.topics, Strip(name)).GetOr(c.nextTopic)
  }

  ghost function WithTopics(c: Catalog, names: seq<string>): Catalog {
    if names == [] then c else WithTopic(WithTopics(c, names[..|names| - 1]), names[|names| - 1])
  }

  ghost function TopicsNamed(c: Catalog, names: seq<string>): set<TopicId> {
    if names == [] then {}
    else TopicsNamed(c, names[..|names| - 1]) + {TopicNamed(WithTopics(c, names[..|names| - 1]), names[|names| - 1])}
  }

  function Known(topics: map<TopicId, string>, staged: seq<TopicId>): set<TopicId> {
    set t | t in staged && t in topics
  }

  /** What a confirm files the document under, and the topics table afterwards. */
  ghost function Resolved(c: Catalog, staged: seq<TopicId>, names: seq<string>): (Catalog, set<TopicId>) {
    var named := WithTopics(c, names);
    var ids := Known(c.topics, staged) + TopicsNamed(c, names);
    if ids != {} then (named, ids)
    else (WithTopic(named, UNCATEGORIZED_TOPIC_NAME), {TopicNamed(named, UNCATEGORIZED_TOPIC_NAME)})
  }

  /* ---- Steps ---- */

  function LinksOf(links: set<(DocId, TopicId)>, doc: DocId): set<TopicId> {
    set l | l in links && l.0 == doc :: l.1
  }

  function Linked(doc: DocId, ids: set<TopicId>): set<(DocId, TopicId)> {
    set t | t in ids :: (doc, t)
  }

  function NewChunks(chunks: map<ChunkId, Chunk>, first: ChunkId, n: nat, chunk: Chunk): map<ChunkId, Chunk> {
    map k | k in chunks.Keys + FreshIds(first, n) :: if k in FreshIds(first, n) then chunk else chunks[k]
  }

  ghost function Confirmed(c: Catalog, doc: DocId, staged: seq<TopicId>, names: seq<string>, n: nat): Catalog {
    var (named, ids) := Resolved(c, staged, names);
    named.(links := c.links + Linked(doc, ids), chunks := NewChunks(c.chunks, c.nextChunk, n, Chunk(doc, ids)),
           filed := c.filed + {doc}, nextChunk := c.nextChunk + n)
  }

  function DocsOf(links: set<(DocId, TopicId)>, topic: TopicId): set<DocId> {
    set l | l in links && l.1 == topic :: l.0
  }

  function Unlinked(links: set<(DocId, TopicId)>, topic: TopicId): set<(DocId, TopicId)> {
    set l | l in links && l.1 != topic
  }

  /** The documents that have no topic but this one. */
  function Orphans(links: set<(DocId, TopicId)>, topic: TopicId): set<DocId> {
    set d | d in DocsOf(links, topic) && LinksOf(Unlinked(links, topic), d) == {}
  }

  function Resync(chunk: Chunk, links: set<(DocId, TopicId)>, docs: set<DocId>): Chunk {
    if chunk.doc in docs then chunk.(topics := LinksOf(links, chunk.doc)) else chunk
  }

  function Resynced(chunks: map<ChunkId, Chunk>, links: set<(DocId, TopicId)>, docs: set<DocId>): map<ChunkId, Chunk> {
    map k | k in chunks :: Resync(chunks[k], links, docs)
  }

  function Without(ids: seq<TopicId>, topic: TopicId): (r: seq<TopicId>)
    ensures topic !in r && forall t :: t in r <==> t in ids && t != topic
  {
    if ids == [] then []
    else if ids[|ids| - 1] == topic then Without(ids[..|ids| - 1], topic)
    else Without(ids[..|ids| - 1], topic) + [ids[|ids| - 1]]
  }

  function Cleared(d: Draft, topic: TopicId): Draft {
    if d.open then d.(suggested := Without(d.suggested, topic)) else d
  }

  function HintsWithout(hints: map<BatchId, seq<TopicId>>, topic: TopicId): map<BatchId, seq<TopicId>> {
    map b | b in hints :: Without(hints[b], topic)
  }

  function DraftsCleared(drafts: map<JobId, Draft>, topic: TopicId): map<JobId, Draft> {
    map j | j in drafts :: Cleared(drafts[j], topic)
  }

  function ChunksOf(chunks: map<ChunkId, Chunk>, docs: set<DocId>): set<ChunkId> {
    set k | k in chunks && chunks[k].doc in docs
  }

  function RowsFor(docs: set<DocId>, t: TopicId): set<(DocId, TopicId)> {
    set d | d in docs :: (d, t)
  }

  datatype DeleteError = NotFound | IsFallback | StillLinked

  /** The links after the re-tagging, and the topics table with the fallback in it. */
  ghost function Retagged(c: Catalog, topic: TopicId): Catalog {
    var orphans := Orphans(c.links, topic);
    if orphans == {} then c.(links := Unlinked(c.links, topic))
    else WithTopic(c, UNCATEGORIZED_TOPIC_NAME)
           .(links := Unlinked(c.links, topic) + RowsFor(orphans, TopicNamed(c, UNCATEGORIZED_TOPIC_NAME)))
  }

  /** Everything a delete rewrites before the topic's own row goes. */
  ghost function Detached(c: Catalog, topic: TopicId): Catalog {
    var r := Retagged(c, topic);
    r.(chunks := Resynced(c.chunks, r.links, DocsOf(c.links, topic)),
       hints := HintsWithout(c.hints, topic), drafts := DraftsCleared(c.drafts, topic))
  }

  ghost function Deleted(c: Catalog, topic: TopicId): Result<Catalog, DeleteError> {
    if topic !in c.topics then Err(NotFound)
    else if c.topics[topic] == UNCATEGORIZED_TOPIC_NAME then Err(IsFallback)
    else
      var d := Detached(c, topic);
      if DocsOf(d.links, topic) != {} then Err(StillLinked) else Ok(d.(topics := d.topics - {topic}))
  }

  /* ---- The invariant ---- */

  ghost predicate TopicsSound(topics: map<TopicId, string>, nextTopic: TopicId) {
    && UniqueNames(topics)
    && (forall t :: t in topics ==> t < nextTopic)
    && exists t :: t in topics && topics[t] == UNCATEGORIZED_TOPIC_NAME
  }

  predicate ChunkAgrees(c: Catalog, k: ChunkId)
    requires k in c.chunks
  {
    c.chunks[k].topics == LinksOf(c.links, c.chunks[k].doc)
  }

  /** Every chunk carries exactly the topics its document is linked to. */
  ghost predicate Agrees(c: Catalog) {
    forall k :: k in c.chunks ==> ChunkAgrees(c, k)
  }

  /** No link dangles, and every filed document has a topic. */
  ghost predicate Sound(c: Catalog) {
    && TopicsSound(c.topics, c.nextTopic)
    && (forall l :: l in c.links ==> l.1 in c.topics && l.0 in c.filed)
    && (forall d :: d in c.filed ==> LinksOf(c.links, d) != {})
    && forall k :: k in c.chunks ==> k < c.nextChunk && c.chunks[k].doc in c.filed
  }

  /** What the first migration seeds. */
  const SEEDED := Catalog(map[0 := UNCATEGORIZED_TOPIC_NAME], {}, map[], map[], map[], {}, 1, 0)

  /* ---- Resolving names ---- */

  /** The table only grows, existing rows keep their names, and names stay unique. */
  ghost predicate Grown(c: Catalog, d: Catalog) {
    && d == c.(topics := d.topics, nextTopic := d.nextTopic) && c.nextTopic <= d.nextTopic
    && TopicsSound(d.topics, d.nextTopic)
    && forall t :: t in c.topics ==> t in d.topics && d.topics[t] == c.topics[t]
  }

  lemma WithTopicGrows(c: Catalog, name: string)
    requires TopicsSound(c.topics, c.nextTopic)
    ensures Grown(c, WithTopic(c, name))
    ensures TopicNamed(c, name) in WithTopic(c, name).topics
    ensures SameName(WithTopic(c, name).topics[TopicNamed(c, name)], Strip(name))
  {
    var d, spelled := WithTopic(c, name), Strip(name);
    assert Find(c.topics, spelled).None? ==> forall t :: t in c.topics ==> !SameName(c.topics[t], spelled);
    hide Strip, Find;
    var u :| u in c.topics && c.topics[u] == UNCATEGORIZED_TOPIC_NAME;
    assert u in d.topics && d.topics[u] == UNCATEGORIZED_TOPIC_NAME;
    assert UniqueNames(d.topics);
  }

  /** The same letter, small or capital. */
  predicate SameLetter(a: char, b: char) {
    || a == b
    || ('A' <= a <= 'Z' && b == a - 'A' + 'a')
    || ('A' <= b <= 'Z' && a == b - 'A' + 'a')
  }

  /** A name written in other capitals leads to the same topic and makes no second one;
      one that differs in anything else does not. */
  lemma CaseIsIgnored(c: Catalog, name: string, other: string)
    requires TopicsSound(c.topics, c.nextTopic) && Trimmed(name) && Trimmed(other)
    ensures var d := WithTopic(c, name);
            (WithTopic(d, other) == d && TopicNamed(d, other) == TopicNamed(c, name))
            <==> |name| == |other| && forall i :: 0 <= i < |name| ==> SameLetter(name[i], other[i])
  {
    StripTrims(name);
    StripTrims(other);
    SameNameExactly(name, other);
    WithTopicGrows(c, name);
    var d, t := WithTopic(c, name), TopicNamed(c, name);
    hide Strip, Trimmed, SameLetter;
    assert SameName(d.topics[t], name);
    if SameName(name, other) {
      assert Find(d.topics, other).Some?;
      NameDetermines(d.topics, t, TopicNamed(d, other), other);
    }
  }

  lemma SameNameExactly(a: string, b: string)
    ensures SameName(a, b) <==> |a| == |b| && forall i :: 0 <= i < |a| ==> SameLetter(a[i], b[i])
  {
    if |a| == |b| && forall i :: 0 <= i < |a| ==> SameLetter(a[i], b[i]) {
      assert forall i :: 0 <= i < |a| ==> Lower(a)[i] == Lower(b)[i];
    }
    if SameName(a, b) {
      forall i | 0 <= i < |a| ensures SameLetter(a[i], b[i]) {
        assert Lower(a)[i] == Lower(b)[i];
      }
    }
  }

  /** In one table a name determines the topic. */
  lemma NameDetermines(topics: map<TopicId, string>, s: TopicId, t: TopicId, name: string)
    requires UniqueNames(topics) && s in topics && t in topics
    requires SameName(topics[s], name) && SameName(topics[t], name)
    ensures s == t
  {
  }

  /** Some name of the list, stripped, is this one. */
  ghost predicate Mentions(names: seq<string>, name: string) {
    exists k :: 0 <= k < |names| && SameName(name, Strip(names[k]))
  }

  lemma MentionsStep(names: seq<string>, name: string)
    requires names != []
    ensures Mentions(names, name) <==> Mentions(names[..|names| - 1], name) || SameName(name, Strip(names[|names| - 1]))
  {
    hide SameName, Strip;
    var init := names[..|names| - 1];
    if Mentions(names, name) {
      var k :| 0 <= k < |names| && SameName(name, Strip(names[k]));
      assert k < |init| ==> init[k] == names[k];
    }
    if Mentions(init, name) {
      var k :| 0 <= k < |init| && SameName(name, Strip(init[k]));
      assert init[k] == names[k];
    }
  }

  lemma GrownTransitive(a: Catalog, b: Catalog, c: Catalog)
    requires Grown(a, b) && Grown(b, c)
    ensures Grown(a, c)
  {
    hide TopicsSound;
  }

  lemma OneMoreName(before: map<TopicId, string>, after: map<TopicId, string>, ids: set<TopicId>, u: TopicId,
                    names: seq<string>, t: TopicId)
    requires names != [] && UniqueNames(after) && t in after && ids <= before.Keys
    requires u in after && SameName(after[u], Strip(names[|names| - 1]))
    requires t in before ==> after[t] == before[t] && (t in ids <==> Mentions(names[..|names| - 1], before[t]))
    requires t !in before ==> t == u
    ensures t in ids + {u} <==> Mentions(names, after[t])
  {
    MentionsStep(names, after[t]);
    if t != u && SameName(after[t],
      Strip(names[|names| - 1])) { NameDetermines(after, t, u, Strip(names[|names| - 1])); }
  }

  /** The ids a list of new names resolves to are those of the topics the list mentions. */
  lemma {:induction false} WithTopicsGrows(c: Catalog, names: seq<string>)
    requires TopicsSound(c.topics, c.nextTopic)
    ensures Grown(c, WithTopics(c, names))
    ensures TopicsNamed(c, names) <= WithTopics(c, names).topics.Keys
    ensures forall t :: t in WithTopics(c, names).topics ==>
              (t in TopicsNamed(c, names) <==> Mentions(names, WithTopics(c, names).topics[t]))
  {
    if names != [] {
      var init, last := names[..|names| - 1], names[|names| - 1];
      WithTopicsGrows(c, init);
      var before, after := WithTopics(c, init), WithTopics(c, names);
      WithTopicGrows(before, last);
      GrownTransitive(c, before, after);
      forall t | t in after.topics && t !in before.topics
        ensures t == TopicNamed(before, last) { OnlyOneIsNew(before, last, t); }
      hide Strip, SameName, Mentions, WithTopic, TopicNamed, UniqueNames;
      forall t | t in after.topics ensures t in TopicsNamed(c, names) <==> Mentions(names, after.topics[t]) {
        OneMoreName(before.topics, after.topics, TopicsNamed(c, init), TopicNamed(before, last), names, t);
      }
    }
  }

  lemma OnlyOneIsNew(c: Catalog, name: string, t: TopicId)
    requires t in WithTopic(c, name).topics && t !in c.topics
    ensures t == TopicNamed(c, name)
  {
  }

  /** A confirm files under the staged topics that still exist and the topics its new
      names mention, and under the fallback exactly when there are none of either. */
  lemma ResolvedExact(c: Catalog, staged: seq<TopicId>, names: seq<string>)
    requires TopicsSound(c.topics, c.nextTopic)
    ensures var (d, ids) := Resolved(c, staged, names);
            && Grown(c, d) && ids != {} && ids <= d.topics.Keys
            && forall t :: t in d.topics ==>
                 (t in ids <==>
                    || (t in staged && t in c.topics) || Mentions(names, d.topics[t])
                    || (names == [] && Known(c.topics, staged) == {}
                      && SameName(d.topics[t], UNCATEGORIZED_TOPIC_NAME)))
  {
    WithTopicsGrows(c, names);
    var named := WithTopics(c, names);
    if names != [] {
      assert TopicNamed(WithTopics(c, names[..|names| - 1]), names[|names| - 1]) in TopicsNamed(c, names);
    }
    if Known(c.topics, staged) + TopicsNamed(c, names) == {} {
      WithTopicGrows(named, UNCATEGORIZED_TOPIC_NAME);
      UncategorizedIsTrimmed();
      hide Strip, SameName;
      var u := TopicNamed(named, UNCATEGORIZED_TOPIC_NAME);
      var d := WithTopic(named, UNCATEGORIZED_TOPIC_NAME);
      forall t | t in d.topics && SameName(d.topics[t], UNCATEGORIZED_TOPIC_NAME) ensures t == u {
        NameDetermines(d.topics, t, u, UNCATEGORIZED_TOPIC_NAME);
      }
      assert forall t :: t in staged && t in c.topics ==> t in Known(c.topics, staged);
    }
  }

  lemma UncategorizedIsTrimmed()
    ensures Strip(UNCATEGORIZED_TOPIC_NAME) == UNCATEGORIZED_TOPIC_NAME
  {
    VisibleIsNotSpace('U');
    VisibleIsNotSpace('d');
    StripTrims(UNCATEGORIZED_TOPIC_NAME);
  }

  /** A seeded table always finds its fallback, under its exact spelling. */
  lemma FallbackExists(c: Catalog)
    requires TopicsSound(c.topics, c.nextTopic)
    ensures WithTopic(c, UNCATEGORIZED_TOPIC_NAME) == c
    ensures TopicNamed(c, UNCATEGORIZED_TOPIC_NAME) in c.topics
    ensures c.topics[TopicNamed(c, UNCATEGORIZED_TOPIC_NAME)] == UNCATEGORIZED_TOPIC_NAME
  {
    UncategorizedIsTrimmed();
    hide Strip;
    var u :| u in c.topics && c.topics[u] == UNCATEGORIZED_TOPIC_NAME;
    assert SameName(c.topics[u], UNCATEGORIZED_TOPIC_NAME);
    NameDetermines(c.topics, u, TopicNamed(c, UNCATEGORIZED_TOPIC_NAME), UNCATEGORIZED_TOPIC_NAME);
  }

  /* ---- Confirming ---- */

  ghost predicate HasChunks(c: Catalog, doc: DocId) {
    exists k :: k in c.chunks && c.chunks[k].doc == doc
  }

  /** The condition under which a confirm keeps a document's chunks in step: its old
      chunks must gain no topic, and its new chunks must miss none. */
  ghost predicate KeepsAgreement(c: Catalog, doc: DocId, staged: seq<TopicId>, names: seq<string>, n: nat) {
    var ids := Resolved(c, staged, names).1;
    && (HasChunks(c, doc) ==> ids <= LinksOf(c.links, doc))
    && (n > 0 ==> LinksOf(c.links, doc) <= ids)
  }

  lemma LinksAfter(links: set<(DocId, TopicId)>, doc: DocId, ids: set<TopicId>, d: DocId)
    ensures LinksOf(links + Linked(doc, ids), d) == LinksOf(links, d) + (if d == doc then ids else {})
  {
    var after := links + Linked(doc, ids);
    forall t ensures t in LinksOf(after, d) <==> t in LinksOf(links, d) || (d == doc && t in ids) {
      assert t in LinksOf(after, d) <==> (d, t) in after;
      assert t in LinksOf(links, d) <==> (d, t) in links;
    }
  }

  /** A confirm never makes a dangling link, whatever ids were staged. */
  lemma ConfirmSound(c: Catalog, doc: DocId, staged: seq<TopicId>, names: seq<string>, n: nat)
    requires Sound(c)
    ensures Sound(Confirmed(c, doc, staged, names, n))
  {
    var after := Confirmed(c, doc, staged, names, n);
    var (d, ids) := Resolved(c, staged, names);
    ResolvedExact(c, staged, names);
    ChunksAfterConfirm(c, doc, staged, names, n);
    assert after.links == c.links + Linked(doc, ids) && after.filed == c.filed + {doc};
    assert after.topics == d.topics && after.nextTopic == d.nextTopic && c.topics.Keys <= d.topics.Keys;
    hide Confirmed, Resolved, Grown, TopicsSound, LinksOf, Mentions, SameName, Known, Linked;
    FilingLinks(c.links, c.topics.Keys, c.filed, doc, ids, d.topics.Keys);
  }

  lemma FilingLinks(links: set<(DocId, TopicId)>, topics: set<TopicId>, filed: set<DocId>,
                    doc: DocId, ids: set<TopicId>, grown: set<TopicId>)
    requires forall l :: l in links ==> l.1 in topics && l.0 in filed
    requires forall d :: d in filed ==> LinksOf(links, d) != {}
    requires topics <= grown && ids <= grown && ids != {}
    ensures forall l :: l in links + Linked(doc, ids) ==> l.1 in grown && l.0 in filed + {doc}
    ensures forall d :: d in filed + {doc} ==> LinksOf(links + Linked(doc, ids), d) != {}
  {
    LinkedPairs(doc, ids);
    hide LinksOf, Linked;
    forall d | d in filed + {doc} ensures LinksOf(links + Linked(doc, ids), d) != {} {
      LinksAfter(links, doc, ids, d);
    }
  }

  lemma LinkedPairs(doc: DocId, ids: set<TopicId>)
    ensures forall l :: l in Linked(doc, ids) <==> l.0 == doc && l.1 in ids
  {
  }

  lemma ChunksAfterConfirm(c: Catalog, doc: DocId, staged: seq<TopicId>, names: seq<string>, n: nat)
    requires forall k :: k in c.chunks ==> k < c.nextChunk && c.chunks[k].doc in c.filed
    ensures var d := Confirmed(c, doc, staged, names, n);
            forall k :: k in d.chunks ==> k < d.nextChunk && d.chunks[k].doc in d.filed
  {
    hide Resolved;
  }

  lemma ChunkAfterConfirm(c: Catalog, doc: DocId, staged: seq<TopicId>, names: seq<string>, n: nat, k: ChunkId)
    requires k in Confirmed(c, doc, staged, names, n).chunks
    requires k in c.chunks ==> k < c.nextChunk && ChunkAgrees(c, k)
    ensures var ids, linked := Resolved(c, staged, names).1, LinksOf(c.links, doc);
            ChunkAgrees(Confirmed(c, doc, staged, names, n), k)
            <==> if k !in c.chunks then linked <= ids else c.chunks[k].doc == doc ==> ids <= linked
  {
    var after, ids := Confirmed(c, doc, staged, names, n), Resolved(c, staged, names).1;
    hide Resolved;
    LinksAfter(c.links, doc, ids, after.chunks[k].doc);
    var linked := LinksOf(c.links, doc);
    hide LinksOf;
    assert ids == linked + ids <==> linked <= ids;
    assert linked == linked + ids <==> ids <= linked;
  }

  /** The chunks agree with the links afterwards if and only if the condition held. */
  lemma ConfirmAgreesExactly(c: Catalog, doc: DocId, staged: seq<TopicId>, names: seq<string>, n: nat)
    requires Sound(c) && Agrees(c)
    ensures Agrees(Confirmed(c, doc, staged, names, n)) <==> KeepsAgreement(c, doc, staged, names, n)
  {
    var after := Confirmed(c, doc, staged, names, n);
    forall k | k in after.chunks
      ensures var ids, linked := Resolved(c, staged, names).1, LinksOf(c.links, doc);
              ChunkAgrees(after, k) <==> if k !in c.chunks then linked <= ids else c.chunks[k].doc == doc ==>
                ids <= linked
    {
      ChunkAfterConfirm(c, doc, staged, names, n, k);
    }
    assert after.chunks.Keys == c.chunks.Keys + FreshIds(c.nextChunk, n);
    assert n > 0 ==> c.nextChunk in after.chunks && c.nextChunk !in c.chunks;
    assert forall k :: k in c.chunks ==> k in after.chunks;
    hide ChunkAgrees, Resolved, Confirmed, LinksOf, Sound;
    assert KeepsAgreement(c, doc, staged, names, n) ==> Agrees(after) by {
      assert forall k :: k in c.chunks && c.chunks[k].doc == doc ==> HasChunks(c, doc);
    }
    if Agrees(after) {
      if HasChunks(c, doc) { var k :| k in c.chunks && c.chunks[k].doc == doc; assert ChunkAgrees(after, k); }
      if n > 0 { assert ChunkAgrees(after, c.nextChunk); }
    }
  }

  /** In particular the first confirm of a document always agrees. */
  lemma FirstConfirmAgrees(c: Catalog, doc: DocId, staged: seq<TopicId>, names: seq<string>, n: nat)
    requires Sound(c) && Agrees(c) && doc !in c.filed
    ensures KeepsAgreement(c, doc, staged, names, n)
  {
    forall t ensures t !in LinksOf(c.links, doc) {
      assert t in LinksOf(c.links, doc) ==> (doc, t) in c.links;
    }
  }

  /** The failing family: a backfill that is re-extracted and then confirmed stages no
      topics, so it links the fallback and leaves the old chunks without it. */
  lemma ReconfirmedBackfillDisagrees(c: Catalog, doc: DocId)
    requires Sound(c) && Agrees(c) && HasChunks(c, doc)
    requires forall t :: t in LinksOf(c.links, doc) && t in c.topics ==>
               !SameName(c.topics[t], UNCATEGORIZED_TOPIC_NAME)
    ensures !Agrees(Confirmed(c, doc, [], [], 0))
  {
    ConfirmAgreesExactly(c, doc, [], [], 0);
    ResolvedExact(c, [], []);
    FallbackExists(c);
    var u := TopicNamed(c, UNCATEGORIZED_TOPIC_NAME);
    assert Resolved(c, [], []) == (c, {u});
    assert SameName(c.topics[u], UNCATEGORIZED_TOPIC_NAME);
  }

  /* ---- What a confirm files, and what it leaves alone ---- */

  /** Is this a topic the confirm was asked for, or the fallback when it was asked for none? */
  ghost predicate Chosen(c: Catalog, staged: seq<TopicId>, names: seq<string>, t: TopicId, name: string) {
    || (t in staged && t in c.topics)
    || Mentions(names, name)
    || (names == [] && (forall s :: s in staged ==> s !in c.topics) && SameName(name, UNCATEGORIZED_TOPIC_NAME))
  }

  ghost predicate Spelled(names: seq<string>, name: string) {
    exists k :: 0 <= k < |names| && name == Strip(names[k])
  }

  /** A new topic is spelled as the user typed it, without the surrounding blanks. */
  lemma {:induction false} NewTopicsAreSpelled(c: Catalog, names: seq<string>)
    ensures forall t :: t in WithTopics(c, names).topics && t !in c.topics
              ==> Spelled(names, WithTopics(c, names).topics[t])
  {
    if names != [] {
      var init, last := names[..|names| - 1], names[|names| - 1];
      NewTopicsAreSpelled(c, init);
      var before, after := WithTopics(c, init), WithTopics(c, names);
      assert after == WithTopic(before, last);
      hide Strip, SameName, WithTopics, Find;
      forall t | t in after.topics && t !in c.topics ensures Spelled(names, after.topics[t]) {
        if t in before.topics && after.topics[t] == before.topics[t] {
          var k :| 0 <= k < |init| && before.topics[t] == Strip(init[k]);
          assert init[k] == names[k];
        } else {
          assert after.topics[t] == Strip(names[|names| - 1]);
        }
      }
    }
  }

  /** A confirm links its document, and no other, to the topics asked for, on top of those
      it had; it adds exactly `n` chunks that carry those topics; and it leaves every old
      chunk, draft, upload hint and topic as it was. */
  lemma ConfirmFiles(c: Catalog, doc: DocId, staged: seq<TopicId>, names: seq<string>, n: nat)
    requires Sound(c)
    ensures var d := Confirmed(c, doc, staged, names, n);
            var ids := set t | t in d.topics && Chosen(c, staged, names, t, d.topics[t]);
            && ids != {}
            && (forall e :: LinksOf(d.links, e) == LinksOf(c.links, e) + if e == doc then ids else {})
            && d.drafts == c.drafts && d.hints == c.hints && d.filed == c.filed + {doc}
            && (forall t :: t in c.topics ==> t in d.topics && d.topics[t] == c.topics[t])
            && (forall t :: t in d.topics && t !in c.topics ==> Spelled(names, d.topics[t]))
            && (forall k :: k in c.chunks ==> k in d.chunks && d.chunks[k] == c.chunks[k])
            && (forall k :: k in d.chunks && k !in c.chunks ==> d.chunks[k] == Chunk(doc, ids))
            && |d.chunks| == |c.chunks| + n
  {
    var d := Confirmed(c, doc, staged, names, n);
    var ids := Resolved(c, staged, names).1;
    ResolvedExact(c, staged, names);
    NewTopicsAreSpelled(c, names);
    ChosenAreResolved(c, staged, names);
    hide Resolved, WithTopics, TopicsSound, LinksOf, Linked, Chosen, Spelled, Mentions, NewChunks, Known;
    assert ids == set t | t in d.topics && Chosen(c, staged, names, t, d.topics[t]);
    forall e ensures LinksOf(d.links, e) == LinksOf(c.links, e) + if e == doc then ids else {} {
      LinksAfter(c.links, doc, ids, e);
    }
    ChunksAdded(c.chunks, c.nextChunk, n, Chunk(doc, ids));
  }

  lemma ChosenAreResolved(c: Catalog, staged: seq<TopicId>, names: seq<string>)
    requires Sound(c)
    ensures var (d, ids) := Resolved(c, staged, names);
            && d == WithTopics(c, names)
            && forall t :: t in ids <==> t in d.topics && Chosen(c, staged, names, t, d.topics[t])
  {
    ResolvedExact(c, staged, names);
    ResolvedTable(c, staged, names);
    NoneKnown(c.topics, staged);
    hide Resolved, WithTopics, Grown, SameName, Mentions, Known, Sound;
  }

  lemma ResolvedTable(c: Catalog, staged: seq<TopicId>, names: seq<string>)
    requires Sound(c)
    ensures Resolved(c, staged, names).0 == WithTopics(c, names)
  {
    NamedIsEnough(c, names);
    hide WithTopics, TopicsNamed, Sound, WithTopic, TopicNamed, Known;
  }

  lemma NoneKnown(topics: map<TopicId, string>, staged: seq<TopicId>)
    ensures Known(topics, staged) == {} <==> forall s :: s in staged ==> s !in topics
  {
    assert forall s :: s in Known(topics, staged) <==> s in staged && s in topics;
  }

  lemma NamedIsEnough(c: Catalog, names: seq<string>)
    requires Sound(c)
    ensures WithTopic(WithTopics(c, names), UNCATEGORIZED_TOPIC_NAME) == WithTopics(c, names)
  {
    WithTopicsGrows(c, names);
    FallbackExists(WithTopics(c, names));
  }

  lemma ChunksAdded(chunks: map<ChunkId, Chunk>, first: ChunkId, n: nat, chunk: Chunk)
    requires forall k :: k in chunks ==> k < first
    ensures var after := NewChunks(chunks, first, n, chunk);
            && (forall k :: k in chunks ==> k in after && after[k] == chunks[k])
            && (forall k :: k in after && k !in chunks ==> after[k] == chunk)
            && |after| == |chunks| + n
  {
    var after := NewChunks(chunks, first, n, chunk);
    FreshIdsCount(first, n);
    assert after.Keys == chunks.Keys + FreshIds(first, n) && chunks.Keys !! FreshIds(first, n);
    assert |after| == |after.Keys| && |chunks| == |chunks.Keys|;
  }

  /* ---- Deleting a topic ---- */

  /** The delete fails on a remaining link if and only if the topic is the fallback in
      another spelling and some document has no other topic. */
  lemma DeleteAbortsExactly(c: Catalog, topic: TopicId)
    requires UniqueNames(c.topics) && topic in c.topics && c.topics[topic] != UNCATEGORIZED_TOPIC_NAME
    requires forall t :: t in c.topics ==> t < c.nextTopic
    ensures Deleted(c, topic) == Err(StillLinked)
       <==> SameName(c.topics[topic], UNCATEGORIZED_TOPIC_NAME) && Orphans(c.links, topic) != {}
  {
    UncategorizedIsTrimmed();
    hide Strip;
    var orphans, u := Orphans(c.links, topic), TopicNamed(c, UNCATEGORIZED_TOPIC_NAME);
    var after := Retagged(c, topic).links;
    if SameName(c.topics[topic], UNCATEGORIZED_TOPIC_NAME) { NameDetermines(c.topics, topic, u,
      UNCATEGORIZED_TOPIC_NAME); }
    assert u == topic <==> SameName(c.topics[topic], UNCATEGORIZED_TOPIC_NAME);
    hide SameName, TopicNamed, WithTopic, Orphans;
    if orphans != {} && u == topic {
      var d :| d in orphans;
      assert (d, topic) in after && d in DocsOf(after, topic);
    } else {
      assert forall l :: l in after ==> l.1 != topic;
    }
  }

  /** In a seeded table the guard on the exact spelling is enough: a delete is refused
      for an unknown topic and for the fallback, and otherwise succeeds. */
  lemma DeleteSucceedsExactly(c: Catalog, topic: TopicId)
    requires Sound(c)
    ensures Deleted(c, topic).Ok? <==> topic in c.topics && c.topics[topic] != UNCATEGORIZED_TOPIC_NAME
  {
    if topic in c.topics && c.topics[topic] != UNCATEGORIZED_TOPIC_NAME {
      FallbackExists(c);
      var u := TopicNamed(c, UNCATEGORIZED_TOPIC_NAME);
      if SameName(c.topics[topic], UNCATEGORIZED_TOPIC_NAME) { NameDetermines(c.topics, topic, u,
        UNCATEGORIZED_TOPIC_NAME); }
      DeleteAbortsExactly(c, topic);
    }
  }

  /** A document loses the topic, and gets the fallback exactly when that was its last. */
  lemma LinksAfterDelete(c: Catalog, topic: TopicId, doc: DocId)
    requires Sound(c) && Deleted(c, topic).Ok?
    ensures var u := TopicNamed(c, UNCATEGORIZED_TOPIC_NAME);
            LinksOf(Deleted(c, topic).value.links, doc)
            == if LinksOf(c.links, doc) == {topic} then {u} else LinksOf(c.links, doc) - {topic}
  {
    FallbackExists(c);
    hide Sound, WithTopic, TopicNamed;
    var u := TopicNamed(c, UNCATEGORIZED_TOPIC_NAME);
    var left, after := Unlinked(c.links, topic), Deleted(c, topic).value.links;
    var orphans := Orphans(c.links, topic);
    assert after == left + if orphans == {} then {} else RowsFor(orphans, u);
    hide Deleted, Detached, Retagged, Orphans;
    forall t ensures t in LinksOf(left, doc) <==> t in LinksOf(c.links, doc) - {topic} {
      assert t in LinksOf(left, doc) <==> (doc, t) in left;
      assert t in LinksOf(c.links, doc) <==> (doc, t) in c.links;
    }
    forall t ensures t in LinksOf(after, doc) <==> t in LinksOf(left, doc) || (doc in orphans && t == u) {
      assert t in LinksOf(after, doc) <==> (doc, t) in after;
      assert t in LinksOf(left, doc) <==> (doc, t) in left;
    }
    OrphanExactly(c.links, topic, doc);
  }

  lemma OrphanExactly(links: set<(DocId, TopicId)>, topic: TopicId, doc: DocId)
    ensures doc in Orphans(links, topic) <==> LinksOf(links, doc) == {topic}
  {
    var left := Unlinked(links, topic);
    assert doc in DocsOf(links, topic) <==> (doc, topic) in links;
    assert topic in LinksOf(links, doc) <==> (doc, topic) in links;
    forall t ensures t in LinksOf(left, doc) <==> t in LinksOf(links, doc) - {topic} {
      assert t in LinksOf(left, doc) <==> (doc, t) in left;
      assert t in LinksOf(links, doc) <==> (doc, t) in links;
    }
    if LinksOf(left, doc) == {} && (doc, topic) in links { assert LinksOf(links, doc) == {topic}; }
  }

  lemma RetaggedKeepsTopics(c: Catalog, topic: TopicId)
    requires Sound(c)
    ensures Retagged(c, topic) == c.(links := Retagged(c, topic).links)
  {
    FallbackExists(c);
    hide WithTopic, TopicNamed, Sound;
  }

  /** After a delete nothing names the topic any more: no link, no upload hint, no open
      draft. Documents and chunks all survive. */
  lemma DeleteClears(c: Catalog, topic: TopicId)
    requires Sound(c) && Deleted(c, topic).Ok?
    ensures var d := Deleted(c, topic).value;
            && d.topics == c.topics - {topic} && d.filed == c.filed && d.chunks.Keys == c.chunks.Keys
            && (forall l :: l in d.links ==> l.1 != topic)
            && (forall b :: b in d.hints ==> topic !in d.hints[b])
            && (forall j :: j in d.drafts && d.drafts[j].open ==> topic !in d.drafts[j].suggested)
  {
    RetaggedKeepsTopics(c, topic);
    hide Retagged, Sound;
    var d := Deleted(c, topic).value;
    forall l | l in d.links ensures l.1 != topic {
      assert l.1 == topic ==> l.0 in DocsOf(d.links, topic);
    }
  }

  lemma DeleteKeepsSound(c: Catalog, topic: TopicId)
    requires Sound(c) && Deleted(c, topic).Ok?
    ensures Sound(Deleted(c, topic).value)
  {
    var d := Deleted(c, topic).value;
    DeleteClears(c, topic);
    FallbackExists(c);
    forall doc ensures LinksOf(d.links, doc)
            == if LinksOf(c.links, doc) == {topic} then {TopicNamed(c, UNCATEGORIZED_TOPIC_NAME)}
              else LinksOf(c.links, doc) - {topic}
    {
      LinksAfterDelete(c, topic, doc);
    }
    forall l | l in d.links ensures l.1 in d.topics && l.0 in d.filed {
      assert l.1 in LinksOf(d.links, l.0);
      LinkedMeans(c.links, l.0);
    }
    DeletedTables(c, topic);
    hide Deleted, Detached, WithTopic, TopicNamed, LinksOf;
    forall doc | doc in d.filed ensures LinksOf(d.links, doc) != {} {
      var t :| t in LinksOf(c.links, doc);
      assert forall e :: e in LinksOf(c.links, doc) - {topic} <==> e in LinksOf(c.links, doc) && e != topic;
      assert LinksOf(c.links, doc) - {topic} == {} ==> LinksOf(c.links, doc) == {topic};
    }
  }

  lemma LinkedMeans(links: set<(DocId, TopicId)>, doc: DocId)
    ensures forall t :: t in LinksOf(links, doc) ==> (doc, t) in links
  {
  }

  lemma DeletedTopics(c: Catalog, topic: TopicId)
    requires TopicsSound(c.topics, c.nextTopic) && topic in c.topics && c.topics[topic] != UNCATEGORIZED_TOPIC_NAME
    ensures TopicsSound(c.topics - {topic}, c.nextTopic)
  {
    hide SameName;
    var u :| u in c.topics && c.topics[u] == UNCATEGORIZED_TOPIC_NAME;
    assert u in c.topics - {topic};
  }

  lemma DeletedTables(c: Catalog, topic: TopicId)
    requires Sound(c) && Deleted(c, topic).Ok?
    ensures var d := Deleted(c, topic).value;
            && TopicsSound(d.topics, d.nextTopic)
            && forall k :: k in d.chunks ==> k < d.nextChunk && d.chunks[k].doc in d.filed
  {
    RetaggedKeepsTopics(c, topic);
    hide Retagged, TopicsSound, LinksOf, DocsOf, UniqueNames;
    DeletedTopics(c, topic);
  }

  /** The documents that had the topic get their chunks rewritten, so those agree with
      the links whatever was in them; all other chunks and links stay as they were. */
  lemma DeleteResyncs(c: Catalog, topic: TopicId, k: ChunkId)
    requires Sound(c) && Deleted(c, topic).Ok? && k in c.chunks
    ensures var d := Deleted(c, topic).value;
            && k in d.chunks && d.chunks[k].doc == c.chunks[k].doc
            && if topic in LinksOf(c.links, c.chunks[k].doc) then ChunkAgrees(d, k)
               else d.chunks[k] == c.chunks[k] && LinksOf(d.links, c.chunks[k].doc) == LinksOf(c.links, c.chunks[k].doc)
  {
    var doc := c.chunks[k].doc;
    LinksAfterDelete(c, topic, doc);
    assert topic in LinksOf(c.links, doc) <==> (doc, topic) in c.links;
    assert doc in DocsOf(c.links, topic) <==> (doc, topic) in c.links;
    assert doc !in DocsOf(c.links, topic) ==> LinksOf(c.links, doc) - {topic} == LinksOf(c.links, doc);
    FallbackExists(c);
    hide WithTopic, TopicNamed, Sound, DocsOf, LinksOf;
  }

  lemma DeleteAgrees(c: Catalog, topic: TopicId)
    requires Sound(c) && Deleted(c, topic).Ok? && Agrees(c)
    ensures Agrees(Deleted(c, topic).value)
  {
    var d := Deleted(c, topic).value;
    DeleteClears(c, topic);
    hide Deleted, Sound, LinksOf;
    forall k | k in d.chunks ensures ChunkAgrees(d, k) {
      DeleteResyncs(c, topic, k);
      assert ChunkAgrees(c, k);
    }
  }

  /** The answer of a delete: documents unlinked, of those re-tagged, chunks rewritten
      and drafts cleared. */
  datatype Counts = Counts(unlinked: nat, uncategorized: nat, resynced: nat, cleared: nat)

  predicate Names(d: Draft, topic: TopicId) {
    d.open && topic in d.suggested
  }

  /** The jobs, `todo` aside, whose open draft names the topic. */
  function Naming(drafts: map<JobId, Draft>, todo: set<JobId>, topic: TopicId): set<JobId> {
    set j | j in drafts && j !in todo && Names(drafts[j], topic)
  }

  function CountsOf(c: Catalog, topic: TopicId): Counts {
    Counts(|DocsOf(c.links, topic)|, |Orphans(c.links, topic)|,
           |ChunksOf(c.chunks, DocsOf(c.links, topic))|,
           |Naming(c.drafts, {}, topic)|)
  }

  /* ---- What a delete leaves alone ---- */

  /** `after` are the ids of `before` at these places, which are those of all other topics. */
  ghost predicate OthersAt(before: seq<TopicId>, after: seq<TopicId>, topic: TopicId, places: seq<nat>) {
    && |places| == |after|
    && (forall a, b :: 0 <= a < b < |places| ==> places[a] < places[b])
    && (forall a :: 0 <= a < |places| ==> places[a] < |before| && before[places[a]] == after[a])
    && forall i :: 0 <= i < |before| ==> (i in places <==> before[i] != topic)
  }

  /** Every id but this one stays, in order and as often as it was there. */
  ghost predicate OthersStay(before: seq<TopicId>, after: seq<TopicId>, topic: TopicId) {
    exists places :: OthersAt(before, after, topic, places)
  }

  lemma {:induction false} WithoutLeavesOthers(ids: seq<TopicId>, topic: TopicId)
    ensures OthersStay(ids, Without(ids, topic), topic)
  {
    if ids == [] {
      assert OthersAt(ids, [], topic, []);
    } else {
      WithoutLeavesOthers(ids[..|ids| - 1], topic);
      hide OthersAt;
      var places :| OthersAt(ids[..|ids| - 1], Without(ids[..|ids| - 1], topic), topic, places);
      OneMorePlace(ids, Without(ids[..|ids| - 1], topic), topic, places);
    }
  }

  lemma OneMorePlace(ids: seq<TopicId>, after: seq<TopicId>, topic: TopicId, places: seq<nat>)
    requires ids != [] && OthersAt(ids[..|ids| - 1], after, topic, places)
    ensures var n := |ids| - 1;
            OthersStay(ids, if ids[n] == topic then after else after + [ids[n]], topic)
  {
    var n := |ids| - 1;
    assert forall i :: 0 <= i < n ==> ids[..n][i] == ids[i];
    if ids[n] == topic {
      assert OthersAt(ids, after, topic, places);
    } else {
      var more := places + [n];
      assert forall i :: 0 <= i < n ==> (i in more <==> i in places);
      assert more[|places|] == n;
      assert OthersAt(ids, after + [ids[n]], topic, more);
    }
  }

  /** Of every draft that may still be confirmed, and of every upload hint, a delete takes
      the topic and nothing else; settled drafts keep even that, and no draft or hint
      comes or goes. */
  lemma DeleteLeavesDrafts(c: Catalog, topic: TopicId)
    requires Deleted(c, topic).Ok?
    ensures var d := Deleted(c, topic).value;
            && d.drafts.Keys == c.drafts.Keys && d.hints.Keys == c.hints.Keys
            && (forall j :: j in c.drafts ==>
                  && d.drafts[j].open == c.drafts[j].open
                  && (!c.drafts[j].open ==> d.drafts[j] == c.drafts[j])
                  && (c.drafts[j].open ==> OthersStay(c.drafts[j].suggested, d.drafts[j].suggested, topic)))
            && forall b :: b in c.hints ==> OthersStay(c.hints[b], d.hints[b], topic)
  {
    var d := Deleted(c, topic).value;
    assert d.drafts == DraftsCleared(c.drafts, topic) && d.hints == HintsWithout(c.hints, topic);
    hide Deleted, Detached, Retagged, Without, OthersStay;
    forall j | j in c.drafts && c.drafts[j].open
      ensures OthersStay(c.drafts[j].suggested, d.drafts[j].suggested, topic) {
      WithoutLeavesOthers(c.drafts[j].suggested, topic);
    }
    forall b | b in c.hints ensures OthersStay(c.hints[b], d.hints[b], topic) {
      WithoutLeavesOthers(c.hints[b], topic);
    }
  }

  /** The documents whose topics a step changes. */
  ghost function Refiled(before: Catalog, after: Catalog): set<DocId> {
    set d | d in before.filed && LinksOf(after.links, d) != LinksOf(before.links, d)
  }

  /** The answer of a delete counts what the delete changed: the documents filed anew,
      those of them that landed on the fallback alone, their chunks, and the drafts. */
  lemma CountsAreWhatChanged(c: Catalog, topic: TopicId)
    requires Sound(c) && Deleted(c, topic).Ok?
    ensures var d := Deleted(c, topic).value;
            var refiled := Refiled(c, d);
            CountsOf(c, topic) == Counts(
              |refiled|,
              |set doc | doc in refiled && |LinksOf(c.links, doc)| == 1|,
              |set k | k in c.chunks && c.chunks[k].doc in refiled|,
              |set j | j in c.drafts && d.drafts[j] != c.drafts[j]|)
  {
    var d := Deleted(c, topic).value;
    var refiled := Refiled(c, d);
    forall doc ensures doc in refiled <==> doc in DocsOf(c.links, topic) {
      RefiledExactly(c, topic, doc);
    }
    assert refiled == DocsOf(c.links, topic);
    assert (set k | k in c.chunks && c.chunks[k].doc in refiled) == ChunksOf(c.chunks, refiled);
    OrphansCounted(c.links, topic, refiled);
    ClearedCounted(c, topic);
    hide *;
  }

  lemma OrphansCounted(links: set<(DocId, TopicId)>, topic: TopicId, docs: set<DocId>)
    requires docs == DocsOf(links, topic)
    ensures (set doc | doc in docs && |LinksOf(links, doc)| == 1) == Orphans(links, topic)
  {
    forall doc | doc in docs ensures |LinksOf(links, doc)| == 1 <==> doc in Orphans(links, topic) {
      OrphanExactly(links, topic, doc);
      LinkedTo(links, topic, doc);
      hide LinksOf, Orphans, DocsOf;
      OnlyElement(LinksOf(links, doc), topic);
    }
  }

  lemma LinkedTo(links: set<(DocId, TopicId)>, topic: TopicId, doc: DocId)
    ensures doc in DocsOf(links, topic) <==> topic in LinksOf(links, doc)
  {
    assert topic in LinksOf(links, doc) <==> (doc, topic) in links;
    assert doc in DocsOf(links, topic) <==> (doc, topic) in links;
  }

  lemma ClearedCounted(c: Catalog, topic: TopicId)
    requires Deleted(c, topic).Ok?
    ensures (set j | j in c.drafts && Deleted(c, topic).value.drafts[j] != c.drafts[j]) == Naming(c.drafts, {}, topic)
  {
    var d := Deleted(c, topic).value;
    assert d.drafts == DraftsCleared(c.drafts, topic);
    hide Deleted, Without;
    forall j | j in c.drafts ensures d.drafts[j] != c.drafts[j] <==> Names(c.drafts[j], topic) {
      if topic !in c.drafts[j].suggested { WithoutAbsent(c.drafts[j].suggested, topic); }
    }
  }

  lemma OnlyElement<T>(s: set<T>, x: T)
    requires x in s
    ensures |s| == 1 <==> s == {x}
  {
    assert s == {x} + (s - {x}) && |s| == 1 + |s - {x}|;
  }

  lemma RefiledExactly(c: Catalog, topic: TopicId, doc: DocId)
    requires Sound(c) && Deleted(c, topic).Ok?
    ensures doc in Refiled(c, Deleted(c, topic).value) <==> doc in DocsOf(c.links, topic)
  {
    LinksAfterDelete(c, topic, doc);
    FallbackExists(c);
    LinkedTo(c.links, topic, doc);
    assert c.topics[TopicNamed(c, UNCATEGORIZED_TOPIC_NAME)] != c.topics[topic];
    hide DocsOf, LinksOf, Deleted, TopicNamed, WithTopic;
  }

  /* ---- Every run ---- */

  /** A confirm files `n` chunks; drafts and upload hints may hold any ids at all. */
  datatype Event =
    | Confirm(doc: DocId, staged: seq<TopicId>, names: seq<string>, n: nat)
    | Create(name: string)
    | DeleteTopic(topic: TopicId)
    | DeleteDocument(doc: DocId)
    | Stage(job: JobId, draft: Draft)
    | Upload(batch: BatchId, hint: seq<TopicId>)

  function DocumentDeleted(c: Catalog, doc: DocId): Catalog {
    c.(links := (set l | l in c.links && l.0 != doc), filed := c.filed - {doc},
       chunks := map k | k in c.chunks && c.chunks[k].doc != doc :: c.chunks[k])
  }

  ghost function Apply(c: Catalog, e: Event): Catalog {
    match e
    case Confirm(doc, staged, names, n) => Confirmed(c, doc, staged, names, n)
    case Create(name) => WithTopic(c, name)
    case DeleteTopic(topic) => if Deleted(c, topic).Ok? then Deleted(c, topic).value else c
    case DeleteDocument(doc) => DocumentDeleted(c, doc)
    case Stage(job, draft) => c.(drafts := c.drafts[job := draft])
    case Upload(batch, hint) => c.(hints := c.hints[batch := hint])
  }

  ghost function Run(c: Catalog, events: seq<Event>): Catalog {
    if events == [] then c else Apply(Run(c, events[..|events| - 1]), events[|events| - 1])
  }

  lemma LinksAfterDocument(c: Catalog, doc: DocId, d: DocId)
    requires d != doc
    ensures LinksOf(DocumentDeleted(c, doc).links, d) == LinksOf(c.links, d)
  {
    forall t ensures t in LinksOf(DocumentDeleted(c, doc).links, d) <==> t in LinksOf(c.links, d) {
      assert t in LinksOf(DocumentDeleted(c, doc).links, d) <==> (d, t) in DocumentDeleted(c, doc).links;
      assert t in LinksOf(c.links, d) <==> (d, t) in c.links;
    }
  }

  /** Deleting a document takes its own links and chunks, and nothing else. */
  lemma DocumentDeleteLeaves(c: Catalog, doc: DocId)
    ensures var d := DocumentDeleted(c, doc);
            && LinksOf(d.links, doc) == {} && (forall e :: e != doc ==> LinksOf(d.links, e) == LinksOf(c.links, e))
            && (forall k :: k in d.chunks <==> k in c.chunks && c.chunks[k].doc != doc)
            && (forall k :: k in d.chunks ==> d.chunks[k] == c.chunks[k])
            && d.topics == c.topics && d.drafts == c.drafts && d.hints == c.hints && d.filed == c.filed - {doc}
  {
    forall e | e != doc ensures LinksOf(DocumentDeleted(c, doc).links, e) == LinksOf(c.links, e) {
      LinksAfterDocument(c, doc, e);
    }
  }

  lemma StepSound(c: Catalog, e: Event)
    requires Sound(c)
    ensures Sound(Apply(c, e))
  {
    match e
    case Confirm(doc, staged, names, n) => ConfirmSound(c, doc, staged, names, n);
    case Create(name) => WithTopicGrows(c, name); hide WithTopic, LinksOf, TopicsSound, TopicNamed;
    case DeleteTopic(topic) => if Deleted(c, topic).Ok? { DeleteKeepsSound(c, topic); } hide Deleted;
    case DeleteDocument(doc) =>
      forall d | d != doc ensures LinksOf(DocumentDeleted(c, doc).links, d)
        == LinksOf(c.links, d) { LinksAfterDocument(c, doc, d); }
      hide LinksOf, TopicsSound;
    case Stage(job, draft) => hide LinksOf, TopicsSound;
    case Upload(batch, hint) => hide LinksOf, TopicsSound;
  }

  /** No link ever dangles and every filed document keeps a topic, over every run and
      whatever stale ids were staged. So no delete is ever stopped by a link. */
  lemma {:induction false} EveryRunIsSound(events: seq<Event>)
    ensures Sound(Run(SEEDED, events))
  {
    if events == [] {
      assert SEEDED.topics[0] == UNCATEGORIZED_TOPIC_NAME;
    } else {
      EveryRunIsSound(events[..|events| - 1]);
      StepSound(Run(SEEDED, events[..|events| - 1]), events[|events| - 1]);
    }
  }

  /** The confirm, if it is one, is a document's first or meets the condition. */
  ghost predicate Keeps(c: Catalog, e: Event) {
    e.Confirm? ==> e.doc !in c.filed || KeepsAgreement(c, e.doc, e.staged, e.names, e.n)
  }

  lemma StepAgreesExactly(c: Catalog, e: Event)
    requires Sound(c) && Agrees(c)
    ensures Agrees(Apply(c, e)) <==> Keeps(c, e)
  {
    match e
    case Confirm(doc, staged, names, n) =>
      if doc !in c.filed { FirstConfirmAgrees(c, doc, staged, names, n); }
      ConfirmAgreesExactly(c, doc, staged, names, n);
      hide Confirmed, KeepsAgreement, Agrees, Sound;
    case Create(name) =>
      WithTopicGrows(c, name);
      hide WithTopic, LinksOf, Sound, TopicsSound;
      assert forall k :: k in c.chunks ==> ChunkAgrees(c, k);
    case DeleteTopic(topic) =>
      if Deleted(c, topic).Ok? { DeleteAgrees(c, topic); }
      hide Deleted, Agrees, Sound;
    case DeleteDocument(doc) =>
      forall d | d != doc ensures LinksOf(DocumentDeleted(c, doc).links, d)
        == LinksOf(c.links, d) { LinksAfterDocument(c, doc, d); }
      hide LinksOf, Sound;
      assert forall k :: k in c.chunks ==> ChunkAgrees(c, k);
    case Stage(job, draft) =>
      hide LinksOf, Sound;
      assert forall k :: k in c.chunks ==> ChunkAgrees(c, k);
    case Upload(batch, hint) =>
      hide LinksOf, Sound;
      assert forall k :: k in c.chunks ==> ChunkAgrees(c, k);
  }

  /** Over every run whose confirms are first confirms, or meet the condition, every
      chunk carries exactly its document's topics. */
  lemma {:induction false} EveryRunAgrees(events: seq<Event>)
    requires forall k :: 0 <= k < |events| ==> Keeps(Run(SEEDED, events[..k]), events[k])
    ensures Agrees(Run(SEEDED, events))
  {
    if events != [] {
      var before := events[..|events| - 1];
      assert forall k :: 0 <= k < |before| ==> before[..k] == events[..k];
      EveryRunAgrees(before);
      EveryRunIsSound(before);
      StepAgreesExactly(Run(SEEDED, before), events[|events| - 1]);
    }
  }

  /** The failing family is reached from the seeded table: a document is filed under one
      new topic with some chunks, and later confirmed again with nothing staged. */
  lemma ReconfirmedRunDisagrees(doc: DocId, name: string, n: nat)
    requires n > 0 && !SameName(Strip(name), UNCATEGORIZED_TOPIC_NAME)
    ensures Agrees(Run(SEEDED, [Confirm(doc, [], [name], n)]))
    ensures !Agrees(Run(SEEDED, [Confirm(doc, [], [name], n), Confirm(doc, [], [], 0)]))
  {
    var first, second := Confirm(doc, [], [name], n), Confirm(doc, [], [], 0);
    assert [first, second][..1] == [first] && [first][..0] == [];
    EveryRunIsSound([]);
    EveryRunIsSound([first]);
    var c := Run(SEEDED, [first]);
    assert c == Confirmed(SEEDED, doc, [], [name], n);
    FirstConfirmAgrees(SEEDED, doc, [], [name], n);
    ConfirmAgreesExactly(SEEDED, doc, [], [name], n);
    FirstConfirmTopics(doc, name, n);
    ReconfirmedBackfillDisagrees(c, doc);
  }

  lemma FirstConfirmTopics(doc: DocId, name: string, n: nat)
    requires n > 0 && !SameName(Strip(name), UNCATEGORIZED_TOPIC_NAME)
    ensures var c := Confirmed(SEEDED, doc, [], [name], n);
            && HasChunks(c, doc)
            && forall t :: t in LinksOf(c.links, doc) && t in c.topics ==>
              !SameName(c.topics[t], UNCATEGORIZED_TOPIC_NAME)
  {
    EveryRunIsSound([]);
    var c := Confirmed(SEEDED, doc, [], [name], n);
    var (d, ids) := Resolved(SEEDED, [], [name]);
    ResolvedExact(SEEDED, [], [name]);
    LinksAfter({}, doc, ids, doc);
    assert c.links == {} + Linked(doc, ids) && c.topics == d.topics;
    assert 0 in FreshIds(0, n) && 0 in c.chunks && c.chunks[0].doc == doc;
    hide Resolved, Strip, Linked;
    forall t | t in ids ensures !SameName(c.topics[t], UNCATEGORIZED_TOPIC_NAME) {
      assert Mentions([name], d.topics[t]);
    }
  }

  /* ---- The tables, updated in place ---- */

  /** What the table itself guarantees: names unique as `citext`, ids not reused. */
  ghost predicate Keyed(topics: map<TopicId, string>, nextTopic: TopicId) {
    UniqueNames(topics) && forall t :: t in topics ==> t < nextTopic
  }

  lemma WithTopicKeyed(c: Catalog, name: string)
    requires Keyed(c.topics, c.nextTopic)
    ensures Keyed(WithTopic(c, name).topics, WithTopic(c, name).nextTopic)
  {
    hide Strip;
  }

  /** The update statement behind a resync, row by row. */
  method ResyncRows(before: map<ChunkId, Chunk>, links: set<(DocId, TopicId)>, docs: set<DocId>)
    returns (chunks: map<ChunkId, Chunk>, count: nat)
    ensures chunks == Resynced(before, links, docs) && count == |ChunksOf(before, docs)|
  {
    chunks, count := before, 0;
    var todo := chunks.Keys;
    assert ChunksOf(before, docs) - todo == {};
    while todo != {}
      invariant todo <= before.Keys && chunks.Keys == before.Keys
      invariant forall k :: k in before ==> chunks[k] == if k in todo then before[k] else Resync(before[k], links, docs)
      invariant count == |ChunksOf(before, docs) - todo|
      decreases todo
    {
      var k :| k in todo;
      ResyncStep(before, docs, todo, k);
      hide ChunksOf, LinksOf;
      todo := todo - {k};
      if chunks[k].doc in docs {
        chunks := chunks[k := chunks[k].(topics := LinksOf(links, chunks[k].doc))];
        count := count + 1;
      }
    }
    assert ChunksOf(before, docs) - {} == ChunksOf(before, docs);
  }

  class TopicStore {
    var topics: map<TopicId, string>
    var links: set<(DocId, TopicId)>
    var chunks: map<ChunkId, Chunk>
    var drafts: map<JobId, Draft>
    var hints: map<BatchId, seq<TopicId>>
    var filed: set<DocId>
    var nextTopic: TopicId
    var nextChunk: ChunkId

    ghost function State(): Catalog reads this {
      Catalog(topics, links, chunks, drafts, hints, filed, nextTopic, nextChunk)
    }

    constructor ()
      ensures State() == SEEDED
    {
      topics, links, chunks, drafts := map[0 := UNCATEGORIZED_TOPIC_NAME], {}, map[], map[];
      hints, filed, nextTopic, nextChunk := map[], {}, 1, 0;
    }

    method GetOrCreateTopic(name: string) returns (id: TopicId)
      requires Keyed(topics, nextTopic)
      modifies this`topics, this`nextTopic
      ensures State() == WithTopic(old(State()), name) && id == TopicNamed(old(State()), name)
      ensures Keyed(topics, nextTopic)
    {
      WithTopicKeyed(State(), name);
      var stripped := Strip(name);
      var rows := topics.Keys;
      while rows != {}
        invariant rows <= topics.Keys && topics == old(topics) && nextTopic == old(nextTopic)
        invariant forall t :: t in topics && t !in rows ==> !SameName(topics[t], stripped)
        decreases rows
      {
        var t :| t in rows;
        if SameName(topics[t], stripped) {
          return t;
        }
        rows := rows - {t};
      }
      id := nextTopic;
      topics := topics[id := stripped];
      nextTopic := nextTopic + 1;
    }

    method ResolveConfirmedTopicIds(staged: seq<TopicId>, names: seq<string>) returns (ids: set<TopicId>)
      requires Keyed(topics, nextTopic)
      modifies this`topics, this`nextTopic
      ensures (State(), ids) == Resolved(old(State()), staged, names)
      ensures Keyed(topics, nextTopic)
    {
      ghost var before := State();
      ids := set t | t in staged && t in topics;
      hide Strip, WithTopic, TopicNamed, Keyed, Find;
      for k := 0 to |names|
        invariant Keyed(topics, nextTopic) && State() == WithTopics(before, names[..k])
        invariant ids == Known(before.topics, staged) + TopicsNamed(before, names[..k])
      {
        assert names[..k + 1][..k] == names[..k];
        var id := GetOrCreateTopic(names[k]);
        ids := ids + {id};
      }
      assert names[..|names|] == names;
      if ids == {} {
        var id := GetOrCreateTopic(UNCATEGORIZED_TOPIC_NAME);
        ids := {id};
      }
    }

    /** The part of a confirm that files the document. */
    method FileDocument(doc: DocId, staged: seq<TopicId>, names: seq<string>, chunkCount: nat)
      requires Keyed(topics, nextTopic)
      modifies this
      ensures State() == Confirmed(old(State()), doc, staged, names, chunkCount)
    {
      ghost var before := State();
      var ids := ResolveConfirmedTopicIds(staged, names);
      ghost var named := State();
      hide Resolved;
      LinkMissing(before.links, doc, ids);
      LinkAll(doc, ids - LinksOf(links, doc));
      AddChunks(doc, ids, chunkCount);
      filed := filed + {doc};
      hide LinksOf, Linked, NewChunks;
    }

    method LinkAll(doc: DocId, ids: set<TopicId>)
      modifies this`links
      ensures links == old(links) + Linked(doc, ids)
    {
      var todo := ids;
      while todo != {}
        invariant todo <= ids && links == old(links) + Linked(doc, ids - todo)
        decreases todo
      {
        var t :| t in todo;
        todo := todo - {t};
        links := links + {(doc, t)};
      }
      assert ids - todo == ids;
    }

    method AddChunks(doc: DocId, ids: set<TopicId>, n: nat)
      modifies this`chunks, this`nextChunk
      ensures chunks == NewChunks(old(chunks), old(nextChunk), n, Chunk(doc, ids)) && nextChunk == old(nextChunk) + n
    {
      for index := 0 to n
        invariant nextChunk == old(nextChunk) + index
        invariant chunks == NewChunks(old(chunks), old(nextChunk), index, Chunk(doc, ids))
      {
        chunks := chunks[nextChunk := Chunk(doc, ids)];
        nextChunk := nextChunk + 1;
      }
    }

    /** Afterwards every chunk of these documents carries its document's links, no other
        chunk has changed, and the count is that of the chunks rewritten. */
    method ResyncChunkTopicIds(docs: set<DocId>) returns (count: nat)
      modifies this`chunks
      ensures chunks == Resynced(old(chunks), links, docs)
      ensures forall k :: k in chunks && chunks[k].doc in docs ==> ChunkAgrees(State(), k)
      ensures count == |ChunksOf(old(chunks), docs)|
    {
      ResyncedAgrees(State(), docs);
      var rewritten;
      rewritten, count := ResyncRows(chunks, links, docs);
      chunks := rewritten;
    }

    method ClearTopicFromStagedJobs(topic: TopicId) returns (cleared: nat)
      modifies this`drafts
      ensures drafts == DraftsCleared(old(drafts), topic)
      ensures cleared == |Naming(old(drafts), {}, topic)|
    {
      ghost var before := drafts;
      cleared := 0;
      var todo := drafts.Keys;
      assert Naming(before, todo, topic) == {};
      while todo != {}
        invariant todo <= before.Keys && drafts.Keys == before.Keys
        invariant forall j :: j in before ==> drafts[j] == if j in todo then before[j] else Cleared(before[j], topic)
        invariant cleared == |Naming(before, todo, topic)|
        decreases todo
      {
        var j :| j in todo;
        NamingStep(before, todo, topic, j);
        hide Naming;
        todo := todo - {j};
        if drafts[j].open && topic in drafts[j].suggested {
          drafts := drafts[j := drafts[j].(suggested := Without(drafts[j].suggested, topic))];
          cleared := cleared + 1;
        } else if drafts[j].open {
          WithoutAbsent(drafts[j].suggested, topic);
        }
      }
    }

    /** A refused delete, and one stopped by a foreign key, leave everything as it was. */
    method DeleteTopic(topic: TopicId) returns (r: Result<Counts, DeleteError>)
      requires Keyed(topics, nextTopic)
      modifies this
      ensures r.Ok? ==> Deleted(old(State()), topic) == Ok(State()) && r.value == CountsOf(old(State()), topic)
      ensures r.Err? ==> Deleted(old(State()), topic) == Err(r.error) && State() == old(State())
    {
      if topic !in topics { return Err(NotFound); }
      if topics[topic] == UNCATEGORIZED_TOPIC_NAME { return Err(IsFallback); }
      var savedTopics, savedLinks, savedChunks, savedDrafts, savedHints, savedNext := topics, links, chunks, drafts,
        hints, nextTopic;
      var counts := Detach(topic);
      hide Detached, DocsOf, Keyed, CountsOf;
      if DocsOf(links, topic) != {} {
        topics, links, chunks, drafts, hints, nextTopic := savedTopics, savedLinks, savedChunks, savedDrafts,
          savedHints, savedNext;
        return Err(StillLinked);
      }
      topics := topics - {topic};
      r := Ok(counts);
    }

    /** Links, chunk copies, upload hints and drafts, in this order. */
    method Detach(topic: TopicId) returns (counts: Counts)
      requires Keyed(topics, nextTopic)
      modifies this
      ensures State() == Detached(old(State()), topic) && counts == CountsOf(old(State()), topic)
    {
      var docs, orphaned := DocsOf(links, topic), Orphans(links, topic);
      Unlink(topic, orphaned);
      hide Retagged, Orphans, Keyed, DocsOf, Naming, ChunksOf, HintsWithout, DraftsCleared, Resynced;
      var resynced := ResyncChunkTopicIds(docs);
      hints := HintsWithout(hints, topic);
      var cleared := ClearTopicFromStagedJobs(topic);
      counts := Counts(|docs|, |orphaned|, resynced, cleared);
    }

    /** Drops the links of a topic and re-tags the documents left without any. */
    method Unlink(topic: TopicId, orphaned: set<DocId>)
      requires Keyed(topics, nextTopic) && orphaned == Orphans(links, topic)
      modifies this`topics, this`nextTopic, this`links
      ensures State() == Retagged(old(State()), topic)
    {
      ghost var before := State();
      links := Unlinked(links, topic);
      if orphaned != {} {
        WithTopicIgnoresLinks(before, Unlinked(before.links, topic), UNCATEGORIZED_TOPIC_NAME);
        var uncategorized := GetOrCreateTopic(UNCATEGORIZED_TOPIC_NAME);
        TagAll(orphaned, uncategorized);
        hide WithTopic, TopicNamed, Orphans, Unlinked, RowsFor;
      }
    }

    method TagAll(docs: set<DocId>, topic: TopicId)
      modifies this`links
      ensures links == old(links) + RowsFor(docs, topic)
    {
      var todo := docs;
      while todo != {}
        invariant todo <= docs
        invariant links == old(links) + RowsFor(docs - todo, topic)
        decreases todo
      {
        var d :| d in todo;
        todo := todo - {d};
        links := links + {(d, topic)};
      }
      assert docs - todo == docs;
    }
  }

  lemma {:induction false} WithoutAbsent(ids: seq<TopicId>, topic: TopicId)
    requires topic !in ids
    ensures Without(ids, topic) == ids
  {
    if ids != [] { WithoutAbsent(ids[..|ids| - 1], topic); }
  }

  lemma WithTopicIgnoresLinks(c: Catalog, links: set<(DocId, TopicId)>, name: string)
    ensures WithTopic(c.(links := links), name) == WithTopic(c, name).(links := links)
    ensures TopicNamed(c.(links := links), name) == TopicNamed(c, name)
  {
  }

  lemma LinkMissing(links: set<(DocId, TopicId)>, doc: DocId, ids: set<TopicId>)
    ensures links + Linked(doc, ids - LinksOf(links, doc)) == links + Linked(doc, ids)
  {
    forall t | t in ids && t in LinksOf(links, doc) ensures (doc, t) in links {
    }
  }

  lemma ResyncedAgrees(c: Catalog, docs: set<DocId>)
    ensures var d := c.(chunks := Resynced(c.chunks, c.links, docs));
            forall k :: k in d.chunks && d.chunks[k].doc in docs ==> ChunkAgrees(d, k)
  {
    hide LinksOf;
  }

  lemma ResyncStep(chunks: map<ChunkId, Chunk>, docs: set<DocId>, todo: set<ChunkId>, k: ChunkId)
    requires k in todo && k in chunks
    ensures |ChunksOf(chunks, docs) - (todo - {k})|
         == |ChunksOf(chunks, docs) - todo| + if chunks[k].doc in docs then 1 else 0
  {
    assert ChunksOf(chunks, docs) - (todo - {k})
        == (ChunksOf(chunks, docs) - todo) + if chunks[k].doc in docs then {k} else {};
  }

  lemma NamingStep(drafts: map<JobId, Draft>, todo: set<JobId>, topic: TopicId, j: JobId)
    requires j in todo && j in drafts
    ensures |Naming(drafts, todo - {j}, topic)| == |Naming(drafts, todo, topic)| + if Names(drafts[j], topic) then 1
              else 0
  {
    assert Naming(drafts, todo - {j}, topic) == Naming(drafts, todo, topic) + if Names(drafts[j], topic) then {j}
             else {};
  }
}
