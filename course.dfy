/** The curriculum builder (lib/courseStructure.ts): the corpus is split into
    modules by a fixed table of category patterns, first match wins, and each
    module's items are split into lessons of at most five items of one
    category. The two operations are methods with the source's loops; each is
    proved equal to a specification function, and the properties the design
    promises are lemmas about those functions. */
module CourseStructure {
  import opened Text
  import opened Types

  const LessonSize: nat := 5

  /** A row of the module table; icon and colour are left out. */
  datatype ModuleDef = ModuleDef(id: string, title: string, description: string, categoryPatterns: seq<string>)

  /** The module table, in declaration order (declaration order breaks ties
      between overlapping patterns). */
  const ModuleDefs: seq<ModuleDef> := [
    ModuleDef("python-fundamentals", "Python Fundamentals",
      "Core Python concepts, libraries, and command-line tools",
        ["Python Concepts", "Python Commands", "Python Libraries",
         "Data Processing Python"]),
    ModuleDef("javascript-deep-dive", "JavaScript Deep Dive",
      "From basics to advanced JS patterns and data formats",
        ["JavaScript Concepts", "Javascript Concepts", "Json Concepts"]),
    ModuleDef("typescript-modern", "TypeScript & Modern Runtimes",
      "Type safety, Deno, and modern JavaScript tooling",
        ["TypeScript Concepts", "Deno Concepts", "Languages"]),
    ModuleDef("web-html-css", "HTML & CSS",
      "Structure, styling, and visual design for the web",
        ["HTML Concepts", "CSS Concepts", "Html5 Concepts", "Css Concepts",
         "HTML CSS Concepts", "Styling", "Theming", "UI Component Libraries"]),
    ModuleDef("react-nextjs", "React & Next.js",
      "Component-based UI, server rendering, and mobile with Capacitor",
        ["React Concepts", "Next.js Concepts", "Capacitor Concepts", "Frameworks"]),
    ModuleDef("bash-cli", "Bash & Command Line",
      "Shell scripting, file management, and system commands",
        ["Bash / Shell Concepts", "Bash Commands: File And Navigation",
         "Bash Commands: Networking", "Bash Commands: Package Management",
         "Bash Commands: Process And Service", "Bash Commands: Ssh"]),
    ModuleDef("git-github", "Git & GitHub",
      "Version control, collaboration, CI/CD, and automation",
        ["Bash Commands: Git", "Github Concepts", "Git And Github", "Git Commands",
         "GitHub Concepts", "Github Actions", "GitHub Actions Workflows",
         "npm Commands"]),
    ModuleDef("sql-databases", "SQL & Databases",
      "Relational databases, queries, schema design, and administration",
        ["SQL Concepts", "Sql Concepts", "Database Tables", "Database Administration",
         "PostgreSQL Concepts", "Database Patterns", "Database Clients",
         "Database: Analytics", "Database: Cached Content",
         "Database: Community Content", "Database: Core Content",
         "Database: Lens Feature", "Database: Relationships", "Database: User Progress"]),
    ModuleDef("networking-http", "Networking & HTTP",
      "Protocols, REST APIs, and web security fundamentals",
        ["Networking", "Http And Rest", "Security"]),
    ModuleDef("cloud-infra", "Cloud & Infrastructure",
      "Cloud platforms, CDNs, serverless, and deployment",
        ["Oracle Cloud Concepts", "Vercel Concepts", "Cloudflare Concepts",
         "Cloudflare Commands", "Cloudflare R2 Concepts", "Infrastructure & Services",
         "Platforms & Infrastructure", "Serverless", "Cloud Storage"]),
    ModuleDef("linux-admin", "Linux Server Admin",
      "Server management, processes, and system configuration",
        ["Linux Server Admin"]),
    ModuleDef("supabase-backend", "Supabase & Backend Services",
      "Backend-as-a-service, auth, storage, and external APIs",
        ["Supabase Concepts", "Authentication & Security", "Environment Variables",
         "External Services", "External APIs", "Configuration Files"]),
    ModuleDef("software-engineering", "Software Engineering",
      "Design patterns, architecture, and engineering best practices",
        ["Software Engineering", "Design Patterns", "Architectural Patterns",
         "Domain Concepts"]),
    ModuleDef("trading-finance", "Trading & Finance",
      "Market concepts, strategies, risk management, and trading APIs",
        ["Trading: Fundamentals", "Trading: Market Regimes", "Trading: Orders",
         "Trading: Performance Metrics", "Trading: Risk Management",
         "Trading: Strategies Used", "Trading: Technical Indicators", "Alpaca API"]),
    ModuleDef("ai-data", "AI, ML & Data",
      "Machine learning concepts, data processing, and analytics",
        ["AI And ML", "Ai Ml", "Analytics", "Internationalization"]),
    ModuleDef("bots-automation", "Bots & Automation",
      "Telegram bots, YAML config, dev tools, and automation",
        ["Telegram Bot Api API", "Telegram Bot Commands", "Yaml Concepts", "Dev Tools"]),
    ModuleDef("lessons-learned", "Lessons & Best Practices",
      "Hard-won lessons from real project experience",
        ["Lessons Learned"])
  ]

  const MoreTopicsId: string := "more-topics"

  // ---------------------------------------------------------------------
  // Grouping by category (createLessons, first loop)
  // ---------------------------------------------------------------------

  /** The distinct categories of `items` in first-seen order: the key order
      of the source's insertion-ordered Map, and also `[...new Set(...)]`. */
  function Categories(items: seq<StudyItem>): seq<string> {
    if items == [] then []
    else
      var rest := Categories(items[..|items| - 1]);
      var c := items[|items| - 1].category;
      if c in rest then rest else rest + [c]
  }

  /** Each category of the corpus is listed, exactly once, and nothing else is. */
  lemma {:induction false} CategoriesSpec(items: seq<StudyItem>)
    ensures Distinct(Categories(items))
    ensures forall i :: 0 <= i < |items| ==> items[i].category in Categories(items)
    ensures forall c :: c in Categories(items) ==> exists i :: 0 <= i < |items| && items[i].category == c
  {
    if items != [] {
      var init := items[..|items| - 1];
      CategoriesSpec(init);
      assert forall i :: 0 <= i < |init| ==> init[i] == items[i];
    }
  }

  /** The items of category `c`, in corpus order. */
  function OfCategory(items: seq<StudyItem>, c: string): seq<StudyItem> {
    if items == [] then []
    else
      var last := items[|items| - 1];
      OfCategory(items[..|items| - 1], c) + (if last.category == c then [last] else [])
  }

  /** The group of `c` holds exactly the corpus items of category `c`. */
  lemma {:induction false} OfCategorySpec(items: seq<StudyItem>, c: string)
    ensures |OfCategory(items, c)| <= |items|
    ensures forall it :: it in OfCategory(items, c) <==> it in items && it.category == c
  {
    if items != [] {
      var last := items[|items| - 1];
      assert items == items[..|items| - 1] + [last];
      OfCategorySpec(items[..|items| - 1], c);
    }
  }

  /** The groups of `cats`, one after another. */
  function GroupedOver(cats: seq<string>, items: seq<StudyItem>): seq<StudyItem> {
    if cats == [] then []
    else GroupedOver(cats[..|cats| - 1], items) + OfCategory(items, cats[|cats| - 1])
  }

  /** The corpus regrouped by category: categories in first-seen order, items
      in corpus order inside each category. */
  function Grouped(items: seq<StudyItem>): seq<StudyItem> {
    GroupedOver(Categories(items), items)
  }

  // ---------------------------------------------------------------------
  // Chunking into lessons (createLessons, second loop)
  // ---------------------------------------------------------------------

  /** One lesson's worth of a category group: the `part`-th run of five of a
      group of `groupSize` items. */
  datatype Chunk = Chunk(category: string, part: nat, groupSize: nat, items: seq<StudyItem>)

  /** Number of runs of five needed for `n` items. */
  function ChunkCount(n: nat): nat {
    (n + LessonSize - 1) / LessonSize
  }

  lemma ChunkCountBound(n: nat, q: nat)
    ensures q < ChunkCount(n) <==> LessonSize * q < n
  {
  }

  function ChunkAt(c: string, group: seq<StudyItem>, j: nat): Chunk
    requires j < ChunkCount(|group|)
  {
    ChunkCountBound(|group|, j);
    Chunk(c, j + 1, |group|, group[LessonSize * j .. Min(LessonSize * j + LessonSize, |group|)])
  }

  /** The group cut into runs of five, in order. */
  function GroupChunks(c: string, group: seq<StudyItem>): seq<Chunk> {
    seq(ChunkCount(|group|), j requires 0 <= j < ChunkCount(|group|) => ChunkAt(c, group, j))
  }

  /** The runs of every group of `cats`, group after group. */
  function AllChunks(cats: seq<string>, items: seq<StudyItem>): seq<Chunk> {
    if cats == [] then []
    else
      var c := cats[|cats| - 1];
      AllChunks(cats[..|cats| - 1], items) + GroupChunks(c, OfCategory(items, c))
  }

  /** The " (Part k)" suffix, present only when the group needs several lessons. */
  function PartSuffix(groupSize: nat, part: nat): string {
    if groupSize > LessonSize then " (Part " + NatToString(part) + ")" else ""
  }

  function Terms(items: seq<StudyItem>): seq<string> {
    seq(|items|, i requires 0 <= i < |items| => items[i].term)
  }

  function LessonId(moduleId: string, order: nat): string {
    moduleId + "-lesson-" + NatToString(order)
  }

  function LessonOf(moduleId: string, order: nat, ch: Chunk): Lesson {
    Lesson(LessonId(moduleId, order), moduleId, ch.category + PartSuffix(ch.groupSize, ch.part),
           Join(Terms(ch.items), ", "), ch.items, order)
  }

  /** The chunks numbered 0, 1, 2, ... in order. */
  function LessonsFor(moduleId: string, chunks: seq<Chunk>): seq<Lesson> {
    seq(|chunks|, k requires 0 <= k < |chunks| => LessonOf(moduleId, k, chunks[k]))
  }

  /** What createLessons returns for a module. */
  function Lessons(moduleId: string, items: seq<StudyItem>): seq<Lesson> {
    LessonsFor(moduleId, AllChunks(Categories(items), items))
  }

  lemma CategoriesSnoc(items: seq<StudyItem>, n: nat)
    requires n < |items|
    ensures Categories(items[..n + 1])
         == var cs := Categories(items[..n]);
            if items[n].category in cs then cs else cs + [items[n].category]
  {
    assert items[..n + 1][..n] == items[..n];
  }

  lemma OfCategorySnoc(items: seq<StudyItem>, n: nat, c: string)
    requires n < |items|
    ensures OfCategory(items[..n + 1], c)
         == OfCategory(items[..n], c) + (if items[n].category == c then [items[n]] else [])
  {
    assert items[..n + 1][..n] == items[..n];
  }

  /** A category absent from the corpus has an empty group. */
  lemma OfCategoryAbsent(items: seq<StudyItem>, c: string)
    requires c !in Categories(items)
    ensures OfCategory(items, c) == []
  {
    OfCategorySpec(items, c);
    CategoriesSpec(items);
  }

  lemma LessonsForSnoc(moduleId: string, chunks: seq<Chunk>, ch: Chunk)
    ensures LessonsFor(moduleId, chunks + [ch]) == LessonsFor(moduleId, chunks) + [LessonOf(moduleId, |chunks|, ch)]
  {
  }

  lemma GroupChunksSnoc(c: string, group: seq<StudyItem>, q: nat)
    requires q < ChunkCount(|group|)
    ensures GroupChunks(c, group)[..q + 1] == GroupChunks(c, group)[..q] + [ChunkAt(c, group, q)]
  {
  }

  /** `groups` with key order `cats` is the category map of `items`. */
  ghost predicate GroupsOf(items: seq<StudyItem>, cats: seq<string>, groups: map<string, seq<StudyItem>>) {
    && cats == Categories(items)
    && (forall c :: c in groups <==> c in cats)
    && (forall c :: c in cats ==> groups[c] == OfCategory(items, c))
  }

  lemma GroupsStep(items: seq<StudyItem>, n: nat, cats: seq<string>, groups: map<string, seq<StudyItem>>)
    requires n < |items| && GroupsOf(items[..n], cats, groups)
    ensures var key := items[n].category;
            var g0 := if key in groups then groups else groups[key := []];
            GroupsOf(items[..n + 1], if key in groups then cats else cats + [key], g0[key := g0[key] + [items[n]]])
  {
    var key := items[n].category;
    var g0 := if key in groups then groups else groups[key := []];
    var cats' := if key in groups then cats else cats + [key];
    var groups' := g0[key := g0[key] + [items[n]]];
    CategoriesSnoc(items, n);
    assert cats' == Categories(items[..n + 1]);
    forall c | c in cats'
      ensures groups'[c] == OfCategory(items[..n + 1], c)
    {
      OfCategorySnoc(items, n, c);
      if c == key && key !in groups {
        OfCategoryAbsent(items[..n], key);
      }
    }
    assert forall c :: c in groups' <==> c in cats';
    assert GroupsOf(items[..n + 1], cats', groups');
  }

  /** The insertion-ordered Map of createLessons's first loop: the keys in
      insertion order and, for each key, the items of that category. */
  method GroupByCategory(items: seq<StudyItem>) returns (cats: seq<string>, groups: map<string, seq<StudyItem>>)
    ensures cats == Categories(items)
    ensures forall c :: c in groups <==> c in cats
    ensures forall c :: c in cats ==> groups[c] == OfCategory(items, c)
  {
    cats := [];
    groups := map[];
    for n := 0 to |items|
      invariant GroupsOf(items[..n], cats, groups)
    {
      GroupsStep(items, n, cats, groups);
      var item := items[n];
      var key := item.category;
      if key !in groups {
        cats := cats + [key];
        groups := groups[key := []];
      }
      groups := groups[key := groups[key] + [item]];
    }
    assert items[..|items|] == items;
  }

  /** createLessons's inner loop for one category: a lesson per run of five
      of the group, numbered on from the lessons already made. */
  method AppendRuns(moduleId: string, category: string, catItems: seq<StudyItem>,
                    made: seq<Lesson>, ghost done: seq<Chunk>) returns (lessons: seq<Lesson>)
    requires made == LessonsFor(moduleId, done)
    ensures lessons == LessonsFor(moduleId, done + GroupChunks(category, catItems))
  {
    ghost var runs := GroupChunks(category, catItems);
    ghost var chunks := done;
    ghost var q: nat := 0;
    lessons := made;
    var order: nat := |made|;
    var i := 0;
    while i < |catItems|
      invariant i == LessonSize * q && q <= |runs|
      invariant chunks == done + runs[..q]
      invariant lessons == LessonsFor(moduleId, chunks)
      invariant order == |lessons| == |chunks|
    {
      ChunkCountBound(|catItems|, q);
      assert i / LessonSize == q;
      var chunk := catItems[i .. Min(i + LessonSize, |catItems|)];
      var run := Chunk(category, i / LessonSize + 1, |catItems|, chunk);
      assert run == runs[q];
      LessonsForSnoc(moduleId, chunks, run);
      lessons := lessons + [LessonOf(moduleId, order, run)];
      chunks := chunks + [run];
      assert runs[..q + 1] == runs[..q] + [run];
      order := order + 1;
      i := i + LessonSize;
      q := q + 1;
    }
    ChunkCountBound(|catItems|, q);
    assert runs[..q] == runs;
  }

  /** createLessons: group the module's items by category, then cut every
      group into runs of five, numbering the lessons in order. */
  method CreateLessons(moduleId: string, items: seq<StudyItem>) returns (lessons: seq<Lesson>)
    ensures lessons == Lessons(moduleId, items)
  {
    var cats, groups := GroupByCategory(items);
    lessons := [];
    for g := 0 to |cats|
      invariant lessons == LessonsFor(moduleId, AllChunks(cats[..g], items))
    {
      var category := cats[g];
      lessons := AppendRuns(moduleId, category, groups[category], lessons, AllChunks(cats[..g], items));
      AllChunksSnoc(cats, g, items);
    }
    assert cats[..|cats|] == cats;
  }

  lemma AllChunksSnoc(cats: seq<string>, g: nat, items: seq<StudyItem>)
    requires g < |cats|
    ensures AllChunks(cats[..g + 1], items) == AllChunks(cats[..g], items) + GroupChunks(cats[g], OfCategory(items, cats[g]))
  {
    assert cats[..g + 1][..g] == cats[..g];
  }

  // ---------------------------------------------------------------------
  // Properties of the lessons
  // ---------------------------------------------------------------------

  /** Concatenation of the lessons' items. */
  function LessonItems(lessons: seq<Lesson>): seq<StudyItem> {
    if lessons == [] then [] else LessonItems(lessons[..|lessons| - 1]) + lessons[|lessons| - 1].items
  }

  function ChunkItems(chunks: seq<Chunk>): seq<StudyItem> {
    if chunks == [] then [] else ChunkItems(chunks[..|chunks| - 1]) + chunks[|chunks| - 1].items
  }

  lemma {:induction false} ChunkItemsAppend(a: seq<Chunk>, b: seq<Chunk>)
    ensures ChunkItems(a + b) == ChunkItems(a) + ChunkItems(b)
    decreases |b|
  {
    if b != [] {
      var b' := b[..|b| - 1];
      assert (a + b)[..|a + b| - 1] == a + b';
      ChunkItemsAppend(a, b');
    } else {
      assert a + b == a;
    }
  }

  lemma {:induction false} GroupChunksPrefix(c: string, group: seq<StudyItem>, q: nat)
    requires q <= ChunkCount(|group|)
    ensures ChunkItems(GroupChunks(c, group)[..q]) == group[..Min(LessonSize * q, |group|)]
  {
    if q > 0 {
      var gc := GroupChunks(c, group);
      assert gc[..q][..q - 1] == gc[..q - 1];
      GroupChunksPrefix(c, group, q - 1);
      ChunkCountBound(|group|, q - 1);
      assert group[..Min(LessonSize * q, |group|)]
          == group[..LessonSize * (q - 1)] + group[LessonSize * (q - 1) .. Min(LessonSize * q, |group|)];
    }
  }

  /** Cutting a group into runs loses and repeats nothing. */
  lemma GroupChunksCover(c: string, group: seq<StudyItem>)
    ensures ChunkItems(GroupChunks(c, group)) == group
  {
    var n := ChunkCount(|group|);
    GroupChunksPrefix(c, group, n);
    ChunkCountBound(|group|, n);
    assert GroupChunks(c, group)[..n] == GroupChunks(c, group);
  }

  lemma {:induction false} AllChunksCover(cats: seq<string>, items: seq<StudyItem>)
    ensures ChunkItems(AllChunks(cats, items)) == GroupedOver(cats, items)
  {
    if cats != [] {
      var c := cats[|cats| - 1];
      AllChunksCover(cats[..|cats| - 1], items);
      ChunkItemsAppend(AllChunks(cats[..|cats| - 1], items), GroupChunks(c, OfCategory(items, c)));
      GroupChunksCover(c, OfCategory(items, c));
    }
  }

  lemma {:induction false} LessonsForItems(moduleId: string, chunks: seq<Chunk>)
    ensures LessonItems(LessonsFor(moduleId, chunks)) == ChunkItems(chunks)
  {
    if chunks != [] {
      var init := chunks[..|chunks| - 1];
      assert LessonsFor(moduleId, chunks)[..|chunks| - 1] == LessonsFor(moduleId, init);
      LessonsForItems(moduleId, init);
    }
  }

  lemma {:induction false} GroupedOverAppend(cats: seq<string>, items: seq<StudyItem>, x: StudyItem)
    requires Distinct(cats)
    ensures multiset(GroupedOver(cats, items + [x]))
         == multiset(GroupedOver(cats, items)) + (if x.category in cats then multiset{x} else multiset{})
  {
    if cats != [] {
      var init := cats[..|cats| - 1];
      var c := cats[|cats| - 1];
      GroupedOverAppend(init, items, x);
      assert (items + [x])[..|items|] == items;
      assert x.category in cats <==> x.category in init || x.category == c;
      assert c !in init;
    }
  }

  /** Regrouping by category is a permutation of the corpus. */
  lemma {:induction false} GroupedIsPermutation(items: seq<StudyItem>)
    ensures multiset(Grouped(items)) == multiset(items)
  {
    if items != [] {
      var init := items[..|items| - 1];
      var x := items[|items| - 1];
      assert items == init + [x];
      GroupedIsPermutation(init);
      var cats := Categories(init);
      CategoriesSpec(init);
      GroupedOverAppend(cats, init, x);
      if x.category !in cats {
        OfCategoryAbsent(init, x.category);
        assert Categories(items) == cats + [x.category];
        assert (cats + [x.category])[..|cats|] == cats;
      }
    }
  }

  /** Concatenating a module's lessons gives the module's items regrouped by
      category (first-seen category order, corpus order inside a category),
      which is a permutation of the module's items. */
  lemma LessonsPartition(moduleId: string, items: seq<StudyItem>)
    ensures LessonItems(Lessons(moduleId, items)) == Grouped(items)
    ensures multiset(LessonItems(Lessons(moduleId, items))) == multiset(items)
  {
    LessonsForItems(moduleId, AllChunks(Categories(items), items));
    AllChunksCover(Categories(items), items);
    GroupedIsPermutation(items);
  }

  /** A run of a category group: the `part`-th slice of five of that group. */
  ghost predicate ChunkOfGroup(items: seq<StudyItem>, ch: Chunk) {
    var g := OfCategory(items, ch.category);
    && ch.part >= 1
    && ch.groupSize == |g|
    && LessonSize * (ch.part - 1) < |g|
    && ch.items == g[LessonSize * (ch.part - 1) .. Min(LessonSize * ch.part, |g|)]
  }

  lemma {:induction false} AllChunksShape(cats: seq<string>, items: seq<StudyItem>)
    ensures forall k :: 0 <= k < |AllChunks(cats, items)| ==> ChunkOfGroup(items, AllChunks(cats, items)[k])
  {
    if cats != [] {
      var c := cats[|cats| - 1];
      AllChunksShape(cats[..|cats| - 1], items);
      var g := OfCategory(items, c);
      forall j | 0 <= j < ChunkCount(|g|)
        ensures ChunkOfGroup(items, GroupChunks(c, g)[j])
      {
        ChunkCountBound(|g|, j);
      }
    }
  }

  /** Every lesson: numbered in order, with id `moduleId-lesson-order`, the
      module's id, one to five items of a single category, that category
      as title (with " (Part k)" exactly when the category has more than five
      items in the module, the lesson then holding its k-th run of five), and
      the items' terms joined by ", " as description. */
  lemma LessonsShape(moduleId: string, items: seq<StudyItem>)
    ensures forall k :: 0 <= k < |Lessons(moduleId, items)| ==>
      var l := Lessons(moduleId, items)[k];
      && l.order == k
      && l.moduleId == moduleId
      && l.id == moduleId + "-lesson-" + NatToString(k)
      && 1 <= |l.items| <= LessonSize
      && l.description == Join(Terms(l.items), ", ")
      && exists ch :: ChunkOfGroup(items, ch) && l.items == ch.items
           && l.title == ch.category + PartSuffix(ch.groupSize, ch.part)
  {
    var chunks := AllChunks(Categories(items), items);
    AllChunksShape(Categories(items), items);
    forall k | 0 <= k < |chunks|
      ensures 1 <= |chunks[k].items| <= LessonSize
    {
      assert ChunkOfGroup(items, chunks[k]);
    }
  }

  /** The part suffix is present exactly when the group exceeds one lesson. */
  lemma PartSuffixShape(groupSize: nat, part: nat)
    ensures PartSuffix(groupSize, part) == "" <==> groupSize <= LessonSize
  {
  }

  /** Lesson ids within a module never repeat. */
  lemma LessonIdsDistinct(moduleId: string, items: seq<StudyItem>)
    ensures forall k1, k2 :: 0 <= k1 < k2 < |Lessons(moduleId, items)| ==>
      Lessons(moduleId, items)[k1].id != Lessons(moduleId, items)[k2].id
  {
    var ls := Lessons(moduleId, items);
    forall k1, k2 | 0 <= k1 < k2 < |ls|
      ensures ls[k1].id != ls[k2].id
    {
      if ls[k1].id == ls[k2].id {
        PrefixedNatInjective(moduleId + "-lesson-", k1, k2);
      }
    }
  }

  // ---------------------------------------------------------------------
  // Module construction (buildModules)
  //
  // The specification functions take the module table as a parameter
  // `defs`; buildModules applies them to ModuleDefs.
  // ---------------------------------------------------------------------

  /** Index of the first row of `defs` at or after `k` whose patterns contain
      `category`, or `|defs|` when there is none. */
  function HomeFrom(defs: seq<ModuleDef>, category: string, k: nat): (h: nat)
    requires k <= |defs|
    ensures k <= h <= |defs|
    ensures h < |defs| ==> category in defs[h].categoryPatterns
    ensures forall j :: k <= j < h ==> category !in defs[j].categoryPatterns
    decreases |defs| - k
  {
    if k == |defs| then k
    else if category in defs[k].categoryPatterns then k
    else HomeFrom(defs, category, k + 1)
  }

  /** The row that claims `category` (first match wins); `|defs|` stands for
      the fallback module. */
  function Home(defs: seq<ModuleDef>, category: string): (h: nat)
    ensures h <= |defs|
    ensures h < |defs| ==> category in defs[h].categoryPatterns
    ensures forall j :: 0 <= j < h ==> category !in defs[j].categoryPatterns
  {
    HomeFrom(defs, category, 0)
  }

  /** One claiming pass of a row over the corpus (the filter callback): an
      item whose id is already claimed is skipped; otherwise it is taken, and
      its id claimed, when its category is one of the row's patterns. */
  function Claim(patterns: seq<string>, items: seq<StudyItem>, claimed: set<string>): (seq<StudyItem>, set<string>) {
    if items == [] then ([], claimed)
    else
      var r := Claim(patterns, items[..|items| - 1], claimed);
      var item := items[|items| - 1];
      if item.id !in r.1 && item.category in patterns then (r.0 + [item], r.1 + {item.id})
      else r
  }

  /** The ids claimed by the first `k` rows. */
  function ClaimedBefore(defs: seq<ModuleDef>, items: seq<StudyItem>, k: nat): set<string>
    requires k <= |defs|
  {
    if k == 0 then {}
    else Claim(defs[k - 1].categoryPatterns, items, ClaimedBefore(defs, items, k - 1)).1
  }

  function DefModule(defs: seq<ModuleDef>, items: seq<StudyItem>, k: nat): Module
    requires k < |defs|
  {
    var def := defs[k];
    var taken := Claim(def.categoryPatterns, items, ClaimedBefore(defs, items, k)).0;
    Module(def.id, def.title, def.description, def.categoryPatterns, taken, Lessons(def.id, taken))
  }

  /** The table mapped to modules, empty ones included. */
  function DefModules(defs: seq<ModuleDef>, items: seq<StudyItem>): seq<Module> {
    seq(|defs|, k requires 0 <= k < |defs| => DefModule(defs, items, k))
  }

  function Unclaimed(items: seq<StudyItem>, claimed: set<string>): seq<StudyItem> {
    if items == [] then []
    else
      var last := items[|items| - 1];
      Unclaimed(items[..|items| - 1], claimed) + (if last.id !in claimed then [last] else [])
  }

  function MoreTopics(rest: seq<StudyItem>): Module {
    Module(MoreTopicsId, "More Topics", "Additional concepts and tools", Categories(rest), rest,
           Lessons(MoreTopicsId, rest))
  }

  /** `modules.filter((m) => m.items.length > 0)`. */
  function NonEmptyModules(ms: seq<Module>): (r: seq<Module>)
    ensures forall m :: m in r <==> m in ms && m.items != []
  {
    if ms == [] then []
    else
      var last := ms[|ms| - 1];
      assert ms == ms[..|ms| - 1] + [last];
      NonEmptyModules(ms[..|ms| - 1]) + (if last.items != [] then [last] else [])
  }

  /** What buildModules returns for table `defs`. */
  function Curriculum(defs: seq<ModuleDef>, items: seq<StudyItem>): seq<Module> {
    var rest := Unclaimed(items, ClaimedBefore(defs, items, |defs|));
    NonEmptyModules(DefModules(defs, items) + (if |rest| > 0 then [MoreTopics(rest)] else []))
  }

  /** One row's `allItems.filter(...)` callback run over the corpus, adding
      the ids it takes to the shared claimed set. */
  method ClaimPass(patterns: seq<string>, allItems: seq<StudyItem>, claimed0: set<string>)
    returns (items: seq<StudyItem>, claimed: set<string>)
    ensures (items, claimed) == Claim(patterns, allItems, claimed0)
  {
    items := [];
    claimed := claimed0;
    for n := 0 to |allItems|
      invariant (items, claimed) == Claim(patterns, allItems[..n], claimed0)
    {
      var item := allItems[n];
      assert allItems[..n + 1][..n] == allItems[..n];
      if item.id !in claimed && item.category in patterns {
        claimed := claimed + {item.id};
        items := items + [item];
      }
    }
    assert allItems[..|allItems|] == allItems;
  }

  /** `allItems.filter((item) => !claimed.has(item.id))`. */
  method UnclaimedPass(allItems: seq<StudyItem>, claimed: set<string>) returns (unclaimed: seq<StudyItem>)
    ensures unclaimed == Unclaimed(allItems, claimed)
  {
    unclaimed := [];
    for n := 0 to |allItems|
      invariant unclaimed == Unclaimed(allItems[..n], claimed)
    {
      assert allItems[..n + 1][..n] == allItems[..n];
      if allItems[n].id !in claimed {
        unclaimed := unclaimed + [allItems[n]];
      }
    }
    assert allItems[..|allItems|] == allItems;
  }

  /** The `MODULE_DEFS.map` callback for row `k`. */
  method BuildRow(defs: seq<ModuleDef>, allItems: seq<StudyItem>, k: nat, claimed0: set<string>)
    returns (m: Module, claimed: set<string>)
    requires k < |defs| && claimed0 == ClaimedBefore(defs, allItems, k)
    ensures m == DefModule(defs, allItems, k)
    ensures claimed == ClaimedBefore(defs, allItems, k + 1)
  {
    var def := defs[k];
    var items;
    items, claimed := ClaimPass(def.categoryPatterns, allItems, claimed0);
    var lessons := CreateLessons(def.id, items);
    m := Module(def.id, def.title, def.description, def.categoryPatterns, items, lessons);
  }

  /** buildModules: one claiming pass per table row over a shared set of
      claimed ids, the unclaimed rest as a trailing "more-topics" module, and
      empty modules dropped. */
  method BuildModules(allItems: seq<StudyItem>) returns (modules: seq<Module>)
    ensures modules == Curriculum(ModuleDefs, allItems)
    ensures forall m :: m in modules ==> m.items != []
  {
    modules := BuildModulesOver(ModuleDefs, allItems);
  }

  /** buildModules's body, for any table `defs`. */
  method BuildModulesOver(defs: seq<ModuleDef>, allItems: seq<StudyItem>) returns (modules: seq<Module>)
    ensures modules == Curriculum(defs, allItems)
    ensures forall m :: m in modules ==> m.items != []
  {
    var claimed: set<string> := {};
    var built: seq<Module> := [];
    for k := 0 to |defs|
      invariant claimed == ClaimedBefore(defs, allItems, k)
      invariant built == DefModules(defs, allItems)[..k]
    {
      var m;
      m, claimed := BuildRow(defs, allItems, k, claimed);
      built := built + [m];
      assert built == DefModules(defs, allItems)[..k + 1];
    }
    assert built == DefModules(defs, allItems);
    var unclaimed := UnclaimedPass(allItems, claimed);
    if |unclaimed| > 0 {
      var lessons := CreateLessons(MoreTopicsId, unclaimed);
      built := built + [Module(MoreTopicsId, "More Topics", "Additional concepts and tools",
                               Categories(unclaimed), unclaimed, lessons)];
      assert built == DefModules(defs, allItems) + [MoreTopics(unclaimed)];
    } else {
      assert built == DefModules(defs, allItems) + [];
    }
    modules := NonEmptyModules(built);
  }

  // ---------------------------------------------------------------------
  // Properties of the modules
  // ---------------------------------------------------------------------

  /** The items whose home row is `k`, in corpus order: a description of what
      row `k` ends up holding that does not mention the claimed set. */
  function HomedIn(defs: seq<ModuleDef>, items: seq<StudyItem>, k: nat): seq<StudyItem> {
    if items == [] then []
    else
      var last := items[|items| - 1];
      HomedIn(defs, items[..|items| - 1], k) + (if Home(defs, last.category) == k then [last] else [])
  }

  lemma {:induction false} HomedInSpec(defs: seq<ModuleDef>, items: seq<StudyItem>, k: nat)
    ensures forall x :: x in HomedIn(defs, items, k) <==> x in items && Home(defs, x.category) == k
  {
    if items != [] {
      assert items == items[..|items| - 1] + [items[|items| - 1]];
      HomedInSpec(defs, items[..|items| - 1], k);
    }
  }

  /** The ids of the whole corpus whose home row comes before `k`. */
  ghost function IdsBelow(defs: seq<ModuleDef>, items: seq<StudyItem>, k: nat): set<string> {
    set i | 0 <= i < |items| && Home(defs, items[i].category) < k :: items[i].id
  }

  /** The ids among the first `n` items whose home row is `k`. */
  ghost function IdsAt(defs: seq<ModuleDef>, items: seq<StudyItem>, n: nat, k: nat): set<string> {
    set i | 0 <= i < n && i < |items| && Home(defs, items[i].category) == k :: items[i].id
  }

  /** With unique ids, an item's id is below row `k` exactly when its own
      category's home is. */
  lemma IdBelow(defs: seq<ModuleDef>, items: seq<StudyItem>, k: nat, i: nat)
    requires UniqueIds(items) && i < |items|
    ensures items[i].id in IdsBelow(defs, items, k) <==> Home(defs, items[i].category) < k
  {
    if items[i].id in IdsBelow(defs, items, k) {
      var j :| 0 <= j < |items| && Home(defs, items[j].category) < k && items[j].id == items[i].id;
      assert i == j;
    }
  }

  lemma IdNotEarlier(defs: seq<ModuleDef>, items: seq<StudyItem>, n: nat, k: nat)
    requires UniqueIds(items) && n < |items|
    ensures items[n].id !in IdsAt(defs, items, n, k)
  {
  }

  lemma UnionAssoc<T>(a: set<T>, b: set<T>, c: set<T>)
    ensures a + (b + c) == (a + b) + c
  {
  }

  /** One more item of the list for a claiming pass. */
  lemma ClaimSnoc(p: seq<string>, items: seq<StudyItem>, n: nat, below: set<string>)
    requires 0 < n <= |items|
    ensures var r := Claim(p, items[..n - 1], below);
            var x := items[n - 1];
            Claim(p, items[..n], below) == if x.id !in r.1 && x.category in p then (r.0 + [x], r.1 + {x.id}) else r
  {
    assert items[..n][..n - 1] == items[..n - 1];
  }

  lemma HomedInSnoc(defs: seq<ModuleDef>, items: seq<StudyItem>, n: nat, k: nat)
    requires 0 < n <= |items|
    ensures var x := items[n - 1];
            HomedIn(defs, items[..n], k) == if Home(defs, x.category) == k then HomedIn(defs, items[..n - 1], k) + [x]
                                            else HomedIn(defs, items[..n - 1], k)
  {
    assert items[..n][..n - 1] == items[..n - 1];
    assert HomedIn(defs, items[..n - 1], k) + [] == HomedIn(defs, items[..n - 1], k);
  }

  lemma IdsAtNext(defs: seq<ModuleDef>, items: seq<StudyItem>, n: nat, k: nat)
    requires 0 < n <= |items|
    ensures var x := items[n - 1];
            IdsAt(defs, items, n, k) == if Home(defs, x.category) == k then IdsAt(defs, items, n - 1, k) + {x.id}
                                        else IdsAt(defs, items, n - 1, k)
  {
  }

  /** Row `k`'s pass, started from the ids homed at earlier rows, takes
      exactly the items homed at `k` and claims their ids. */
  lemma {:induction false} ClaimHomed(defs: seq<ModuleDef>, items: seq<StudyItem>, k: nat, n: nat)
    requires UniqueIds(items) && k < |defs| && n <= |items|
    ensures Claim(defs[k].categoryPatterns, items[..n], IdsBelow(defs, items, k))
         == (HomedIn(defs, items[..n], k), IdsBelow(defs, items, k) + IdsAt(defs, items, n, k))
  {
    if n > 0 {
      ClaimHomed(defs, items, k, n - 1);
      var x := items[n - 1];
      var p, below := defs[k].categoryPatterns, IdsBelow(defs, items, k);
      var r := Claim(p, items[..n - 1], below);
      ClaimSnoc(p, items, n, below);
      HomedInSnoc(defs, items, n, k);
      IdsAtNext(defs, items, n, k);
      IdBelow(defs, items, k, n - 1);
      IdNotEarlier(defs, items, n - 1, k);
      assert (x.id !in r.1 && x.category in p) <==> Home(defs, x.category) == k;
      if Home(defs, x.category) == k {
        UnionAssoc(below, IdsAt(defs, items, n - 1, k), {x.id});
      }
    } else {
      var below := IdsBelow(defs, items, k);
      assert items[..0] == [];
      assert IdsAt(defs, items, 0, k) == {};
      assert Claim(defs[k].categoryPatterns, [], below) == ([], below);
      assert HomedIn(defs, [], k) == [];
      assert below + {} == below;
    }
  }

  lemma IdsBelowNext(defs: seq<ModuleDef>, items: seq<StudyItem>, k: nat)
    ensures IdsBelow(defs, items, k + 1) == IdsBelow(defs, items, k) + IdsAt(defs, items, |items|, k)
  {
  }

  /** Row `k` claiming over the whole list, with the ids homed before it
      already claimed, takes exactly its homed items and their ids. */
  lemma ClaimAllHomed(defs: seq<ModuleDef>, items: seq<StudyItem>, k: nat)
    requires UniqueIds(items) && k < |defs|
    ensures Claim(defs[k].categoryPatterns, items, IdsBelow(defs, items, k))
         == (HomedIn(defs, items, k), IdsBelow(defs, items, k + 1))
  {
    ClaimHomed(defs, items, k, |items|);
    assert items[..|items|] == items;
    IdsBelowNext(defs, items, k);
  }

  /** The claimed set after `k` rows holds the ids homed before row `k`. */
  lemma {:induction false} ClaimedBeforeIds(defs: seq<ModuleDef>, items: seq<StudyItem>, k: nat)
    requires UniqueIds(items) && k <= |defs|
    ensures ClaimedBefore(defs, items, k) == IdsBelow(defs, items, k)
  {
    if k > 0 {
      ClaimedBeforeIds(defs, items, k - 1);
      ClaimAllHomed(defs, items, k - 1);
    } else {
      assert IdsBelow(defs, items, 0) == {};
    }
  }

  /** The items left after every row has claimed are those homed at the
      fallback. */
  lemma {:induction false} UnclaimedHomed(defs: seq<ModuleDef>, items: seq<StudyItem>, n: nat)
    requires UniqueIds(items) && n <= |items|
    ensures Unclaimed(items[..n], IdsBelow(defs, items, |defs|)) == HomedIn(defs, items[..n], |defs|)
  {
    if n > 0 {
      UnclaimedHomed(defs, items, n - 1);
      assert items[..n][..n - 1] == items[..n - 1];
      IdBelow(defs, items, |defs|, n - 1);
    }
  }

  /** The id of row `k`, the fallback module standing after the table. */
  function RowId(defs: seq<ModuleDef>, k: nat): string
    requires k <= |defs|
  {
    if k < |defs| then defs[k].id else MoreTopicsId
  }

  /** The table's ids are pairwise distinct and differ from "more-topics". */
  predicate RowIdsDistinct(defs: seq<ModuleDef>) {
    forall j, k :: 0 <= j < k <= |defs| ==> RowId(defs, j) != RowId(defs, k)
  }

  /** The module of row `k` before empty modules are dropped. */
  function RowModule(defs: seq<ModuleDef>, items: seq<StudyItem>, k: nat): Module
    requires k <= |defs|
  {
    if k < |defs| then DefModule(defs, items, k)
    else MoreTopics(Unclaimed(items, ClaimedBefore(defs, items, |defs|)))
  }

  function Rows(defs: seq<ModuleDef>, items: seq<StudyItem>): seq<Module> {
    seq(|defs| + 1, k requires 0 <= k <= |defs| => RowModule(defs, items, k))
  }

  /** Each row's module is named by the row and holds the items homed there,
      with the lessons createLessons makes of them. */
  lemma RowModuleShape(defs: seq<ModuleDef>, items: seq<StudyItem>, k: nat)
    requires UniqueIds(items) && k <= |defs|
    ensures RowModule(defs, items, k).id == RowId(defs, k)
    ensures RowModule(defs, items, k).items == HomedIn(defs, items, k)
    ensures RowModule(defs, items, k).lessons == Lessons(RowId(defs, k), HomedIn(defs, items, k))
  {
    assert items[..|items|] == items;
    ClaimedBeforeIds(defs, items, k);
    if k < |defs| {
      ClaimHomed(defs, items, k, |items|);
    } else {
      UnclaimedHomed(defs, items, |items|);
    }
  }

  lemma NonEmptySnoc(ms: seq<Module>, m: Module)
    ensures NonEmptyModules(ms + [m]) == NonEmptyModules(ms) + (if m.items != [] then [m] else [])
  {
    assert (ms + [m])[..|ms|] == ms;
  }

  /** What buildModules returns is the non-empty rows, the fallback included
      (an empty fallback is the one the source never pushes). */
  lemma CurriculumRows(defs: seq<ModuleDef>, items: seq<StudyItem>)
    ensures Curriculum(defs, items) == NonEmptyModules(Rows(defs, items))
  {
    var rest := Unclaimed(items, ClaimedBefore(defs, items, |defs|));
    var built := DefModules(defs, items);
    assert Rows(defs, items) == built + [MoreTopics(rest)];
    if |rest| == 0 {
      NonEmptySnoc(built, MoreTopics(rest));
      assert built + [] == built;
    }
  }

  /** Dropping empty modules keeps the remaining ones in order, so distinct
      ids stay distinct. */
  lemma {:induction false} NonEmptyKeepsDistinctIds(ms: seq<Module>)
    requires forall i, j :: 0 <= i < j < |ms| ==> ms[i].id != ms[j].id
    ensures forall i, j :: 0 <= i < j < |NonEmptyModules(ms)| ==>
      NonEmptyModules(ms)[i].id != NonEmptyModules(ms)[j].id
  {
    if ms != [] {
      var init := ms[..|ms| - 1];
      NonEmptyKeepsDistinctIds(init);
      var r := NonEmptyModules(init);
      forall i | 0 <= i < |r|
        ensures r[i].id != ms[|ms| - 1].id
      {
        assert r[i] in init;
      }
    }
  }

  /** Every module buildModules returns is a non-empty row: it is named by
      the row, holds the items homed there, in corpus order, and carries the
      lessons createLessons makes of them. */
  lemma CurriculumModules(defs: seq<ModuleDef>, items: seq<StudyItem>)
    requires UniqueIds(items)
    ensures forall m :: m in Curriculum(defs, items) ==> m.items != []
    ensures forall m :: m in Curriculum(defs, items) ==>
      exists k :: 0 <= k <= |defs| && m.id == RowId(defs, k) && m.items == HomedIn(defs, items, k)
                  && m.lessons == Lessons(m.id, m.items)
  {
    var rows := Rows(defs, items);
    CurriculumRows(defs, items);
    forall m | m in Curriculum(defs, items)
      ensures exists k :: 0 <= k <= |defs| && m.id == RowId(defs, k) && m.items == HomedIn(defs, items, k)
                          && m.lessons == Lessons(m.id, m.items)
    {
      var k :| 0 <= k < |rows| && rows[k] == m;
      RowModuleShape(defs, items, k);
    }
  }

  /** The rows' ids are the row ids, so they are distinct when the table's
      are. */
  lemma CurriculumIdsDistinct(defs: seq<ModuleDef>, items: seq<StudyItem>)
    requires RowIdsDistinct(defs)
    ensures forall i, j :: 0 <= i < j < |Curriculum(defs, items)| ==>
      Curriculum(defs, items)[i].id != Curriculum(defs, items)[j].id
  {
    var rows := Rows(defs, items);
    CurriculumRows(defs, items);
    assert forall k :: 0 <= k < |rows| ==> rows[k].id == RowId(defs, k);
    NonEmptyKeepsDistinctIds(rows);
  }

  /** buildModules over a table with distinct ids and a corpus with unique
      ids partitions the corpus: module ids are distinct, and every item lies
      in exactly one module, the one of its category's home row (the first
      row listing the category, else "more-topics"). */
  lemma CurriculumPartition(defs: seq<ModuleDef>, items: seq<StudyItem>)
    requires RowIdsDistinct(defs) && UniqueIds(items)
    ensures forall i, j :: 0 <= i < j < |Curriculum(defs, items)| ==>
      Curriculum(defs, items)[i].id != Curriculum(defs, items)[j].id
    ensures forall m, x :: m in Curriculum(defs, items) && x in items ==>
      (x in m.items <==> m.id == RowId(defs, Home(defs, x.category)))
    ensures forall x :: x in items ==> exists m :: m in Curriculum(defs, items) && x in m.items
  {
    var ms := Curriculum(defs, items);
    CurriculumModules(defs, items);
    CurriculumIdsDistinct(defs, items);
    forall m, x | m in ms && x in items
      ensures x in m.items <==> m.id == RowId(defs, Home(defs, x.category))
    {
      var k :| 0 <= k <= |defs| && m.id == RowId(defs, k) && m.items == HomedIn(defs, items, k);
      HomedInSpec(defs, items, k);
    }
    forall x | x in items
      ensures exists m :: m in ms && x in m.items
    {
      var k := Home(defs, x.category);
      var rows := Rows(defs, items);
      CurriculumRows(defs, items);
      RowModuleShape(defs, items, k);
      HomedInSpec(defs, items, k);
      assert x in rows[k].items;
    }
  }

  /** No table row is the fallback. */
  lemma TableRowsNotFallback(defs: seq<ModuleDef>, items: seq<StudyItem>)
    requires RowIdsDistinct(defs)
    ensures forall m :: m in NonEmptyModules(Rows(defs, items)[..|defs|]) ==> m.id != MoreTopicsId
  {
    var rows := Rows(defs, items)[..|defs|];
    assert forall k :: 0 <= k < |rows| ==> rows[k].id == defs[k].id;
    assert forall k :: 0 <= k < |defs| ==> defs[k].id != MoreTopicsId by {
      assert RowId(defs, |defs|) == MoreTopicsId;
      forall k | 0 <= k < |defs|
        ensures defs[k].id != MoreTopicsId
      {
        assert RowId(defs, k) == defs[k].id;
      }
    }
  }

  /** Curriculum as the non-empty table rows followed by the fallback module
      when it has items. */
  lemma CurriculumSplit(defs: seq<ModuleDef>, items: seq<StudyItem>)
    requires UniqueIds(items)
    ensures var fallback := MoreTopics(HomedIn(defs, items, |defs|));
            Curriculum(defs, items)
            == NonEmptyModules(Rows(defs, items)[..|defs|]) + (if fallback.items != [] then [fallback] else [])
  {
    var n := |defs|;
    var rows := Rows(defs, items);
    CurriculumRows(defs, items);
    RowModuleShape(defs, items, n);
    assert rows == rows[..n] + [rows[n]];
    NonEmptySnoc(rows[..n], rows[n]);
  }

  /** The fallback module comes last and exists exactly when some item
      matches no row. */
  lemma MoreTopicsLast(defs: seq<ModuleDef>, items: seq<StudyItem>)
    requires RowIdsDistinct(defs) && UniqueIds(items)
    ensures (exists x :: x in items && Home(defs, x.category) == |defs|) <==>
      (|Curriculum(defs, items)| > 0 && Curriculum(defs, items)[|Curriculum(defs, items)| - 1].id == MoreTopicsId)
  {
    CurriculumSplit(defs, items);
    TableRowsNotFallback(defs, items);
    HomedInSpec(defs, items, |defs|);
  }

  /** The fallback module lists the distinct unclaimed categories in
      first-seen order. */
  lemma MoreTopicsCategories(defs: seq<ModuleDef>, items: seq<StudyItem>)
    requires RowIdsDistinct(defs) && UniqueIds(items)
    ensures forall m :: m in Curriculum(defs, items) && m.id == MoreTopicsId ==>
      m.categories == Categories(HomedIn(defs, items, |defs|))
  {
    CurriculumSplit(defs, items);
    TableRowsNotFallback(defs, items);
  }

  /** The row ids of the shipped table, fallback last. */
  const RowIdList: seq<string> := [
    "python-fundamentals", "javascript-deep-dive", "typescript-modern", "web-html-css",
    "react-nextjs", "bash-cli", "git-github", "sql-databases", "networking-http",
    "cloud-infra", "linux-admin", "supabase-backend", "software-engineering",
    "trading-finance", "ai-data", "bots-automation", "lessons-learned", MoreTopicsId]

  lemma ModuleDefsRowIds()
    ensures |ModuleDefs| + 1 == |RowIdList|
    ensures forall k :: 0 <= k <= |ModuleDefs| ==> RowId(ModuleDefs, k) == RowIdList[k]
  {
  }

  lemma RowIdListDistinct()
    ensures Distinct(RowIdList)
  {
  }

  /** The shipped table satisfies the distinct-ids condition. */
  lemma ModuleDefsIdsDistinct()
    ensures RowIdsDistinct(ModuleDefs)
  {
    ModuleDefsRowIds();
    RowIdListDistinct();
  }
}
