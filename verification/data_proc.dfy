/** Catalog cleaning (`Dataset_proc`): the title normaliser used as the join
    key, overview truncation, and the per-row coalesce/filter rules and
    keep-first deduplication that `preprocess_film_data` applies to the
    merged TMDB/Letterboxd table. The join itself is not modelled: the rules
    work on the rows it produces. */
module DataProc {
  import opened Outcome
  import opened Text

  /** The word limits read from the configuration (6 and 169 in the shipped config). */
  datatype Config = Config(minOverviewWords: nat, maxOverviewWords: nat)

  /** `release_info` after coalescing: the cell may come from any of three columns. */
  datatype ReleaseInfo = ReleaseDate(date: string) | Year(year: int) | Status(status: string)

  /** One row of the outer join of TMDB and Letterboxd, keyed by the normalised title. */
  datatype MergedRow = MergedRow(
    titleNorm: string,
    titleTmdb: Option<string>,
    titleLb: Option<string>,
    status: Option<string>,
    releaseDate: Option<string>,
    year: Option<int>,
    overview: Option<string>,
    synopsis: Option<string>,
    genresTmdb: Option<string>,
    genresLb: Option<string>,
    adult: Option<bool>)

  /** A row of the cleaned catalog (the numeric and people columns that pass
      through untouched are not carried). */
  datatype Film = Film(
    title: Option<string>,
    releaseInfo: Option<ReleaseInfo>,
    overview: string,
    genres: Option<string>)

  /** Production statuses whose films are dropped. */
  const DroppedStatuses: set<string> := {"Canceled", "Rumored", "Planned"}

  /** Titles treated as missing by the blank-title filter. */
  const BlankTitles: set<string> := {"", " "}

  /** A character `_normalize_title` can leave in its result. */
  predicate NormalChar(c: char) {
    c == ' ' || IsLowerLetter(c) || IsDigit(c)
  }

  predicate AlnumOrSpace(c: char) {
    IsAlnum(c) || IsSpace(c)
  }

  /** `_normalize_title`: lower-case, strip, delete "the ", "a " and "an " (in
      that order, anywhere in the string), keep alphanumerics and whitespace,
      then collapse whitespace. A missing title normalises to "". */
  function NormalizeTitle(title: Option<string>): (r: string)
    ensures title.None? ==> r == ""
    ensures All(r, NormalChar)
    ensures Collapsed(r)
  {
    match title
    case None => ""
    case Some(t) =>
      var lowered := Strip(Lower(t));
      var removed := DropArticles(lowered);
      var kept := Keep(removed, AlnumOrSpace);
      NormalizeTitleShape(t, kept);
      Collapse(kept)
  }

  /** `.replace("the ", "").replace("a ", "").replace("an ", "")`. */
  function DropArticles(s: string): (r: string)
    ensures |r| <= |s|
    ensures forall c :: c in r ==> c in s
  {
    RemoveAll(RemoveAll(RemoveAll(s, "the "), "a "), "an ")
  }

  /** The cleaned string's words hold only lower-case letters and digits, so
      collapsing it yields only normal characters in collapsed form. */
  lemma NormalizeTitleShape(t: string, kept: string)
    requires All(kept, AlnumOrSpace)
    requires forall c :: c in kept ==> c in Lower(t)
    ensures All(Collapse(kept), NormalChar)
    ensures Collapsed(Collapse(kept))
  {
    var ws := Words(kept);
    forall i | 0 <= i < |ws| ensures All(ws[i], NormalChar) {
      assert IsWord(ws[i]);
      forall j | 0 <= j < |ws[i]| ensures NormalChar(ws[i][j]) {
        var c := ws[i][j];
        assert c in kept;
        var k :| 0 <= k < |kept| && kept[k] == c;
        assert AlnumOrSpace(kept[k]);
        var m :| 0 <= m < |Lower(t)| && Lower(t)[m] == c;
        assert !IsUpper(c);
      }
    }
    JoinChars(ws, " ", NormalChar);
    CollapseShape(kept);
  }

  /** Case never matters to the join key: a title and its lower-cased form
      normalise to the same string. */
  lemma NormalizeTitleIgnoresCase(t: string)
    ensures NormalizeTitle(Some(Lower(t))) == NormalizeTitle(Some(t))
  {
    assert Lower(Lower(t)) == Lower(t);
  }

  /** Whitespace around a title never matters to the join key (`strip` runs
      after `lower`, before anything else). */
  lemma NormalizeTitleIgnoresPadding(pre: string, t: string, post: string)
    requires All(pre, IsSpace) && All(post, IsSpace)
    ensures NormalizeTitle(Some(pre + t + post)) == NormalizeTitle(Some(t))
  {
    LowerAppend(pre + t, post);
    LowerAppend(pre, t);
    assert All(Lower(pre), IsSpace) && All(Lower(post), IsSpace);
    StripIgnoresPadding(Lower(pre), Lower(t), Lower(post));
  }

  /** A leading article is deleted: "The X", "A X" and "An X" have the key of
      "X" (when X starts with a non-space character). */
  lemma NormalizeTitleDropsLeadingArticle(t: string)
    requires |t| > 0 && !IsSpace(t[0])
    ensures NormalizeTitle(Some("the " + t)) == NormalizeTitle(Some(t))
    ensures NormalizeTitle(Some("a " + t)) == NormalizeTitle(Some(t))
    ensures NormalizeTitle(Some("an " + t)) == NormalizeTitle(Some(t))
  {
    var x := Strip(Lower(t));
    ArticlesAreLower();
    StripAfterWord("the ", t);
    StripAfterWord("a ", t);
    StripAfterWord("an ", t);
    DropArticlesThe(x);
    DropArticlesA(x);
    DropArticlesAn(x);
  }

  lemma DropArticlesThe(x: string)
    ensures DropArticles("the " + x) == DropArticles(x)
  {
    RemoveAllDrop(x, "the ");
  }

  lemma DropArticlesA(x: string)
    ensures DropArticles("a " + x) == DropArticles(x)
  {
    assert "a " + x == ['a'] + ([' '] + x);
    RemoveAllSkip(' ', x, "the ");
    RemoveAllSkip('a', [' '] + x, "the ");
    assert ['a'] + ([' '] + RemoveAll(x, "the ")) == "a " + RemoveAll(x, "the ");
    RemoveAllDrop(RemoveAll(x, "the "), "a ");
  }

  lemma DropArticlesAn(x: string)
    ensures DropArticles("an " + x) == DropArticles(x)
  {
    assert "an " + x == ['a'] + (['n'] + ([' '] + x));
    RemoveAllSkip(' ', x, "the ");
    RemoveAllSkip('n', [' '] + x, "the ");
    RemoveAllSkip('a', ['n'] + ([' '] + x), "the ");
    var y := RemoveAll(x, "the ");
    RemoveAllSkip(' ', y, "a ");
    RemoveAllSkip('n', [' '] + y, "a ");
    assert (['a'] + (['n'] + ([' '] + y)))[1] == 'n';
    RemoveAllKeep('a', ['n'] + ([' '] + y), "a ");
    assert ['a'] + (['n'] + ([' '] + RemoveAll(y, "a "))) == "an " + RemoveAll(y, "a ");
    RemoveAllDrop(RemoveAll(y, "a "), "an ");
  }

  /** The deletion is by substring, not by word: a word ending in "a" loses
      that letter together with the space after it, so "sea wolf" becomes
      "sewolf" (here `w` = "se" holds neither 't' nor 'a'). */
  lemma DropArticlesInsideWord(w: string, x: string)
    requires 't' !in w && 'a' !in w
    ensures DropArticles(w + "a " + x) == w + DropArticles(x)
  {
    assert w + "a " + x == w + ("a " + x);
    RemoveAllKeepsPrefix(w, "a " + x, "the ");
    DropArticlesA(x);
    var y := RemoveAll("a " + x, "the ");
    RemoveAllKeepsPrefix(w, y, "a ");
    RemoveAllKeepsPrefix(w, RemoveAll(y, "a "), "an ");
  }

  /** A lower-case word with a space behind it, put in front of a title that
      starts with a non-space character, survives `lower` and `strip` in front. */
  lemma StripAfterWord(p: string, t: string)
    requires |p| > 0 && !IsSpace(p[0]) && Lower(p) == p
    requires |t| > 0 && !IsSpace(t[0])
    ensures Strip(Lower(p + t)) == p + Strip(Lower(t))
  {
    LowerAppend(p, t);
    var l := Lower(t);
    assert !IsSpace(l[0]);
    assert TrimStart(p + l) == p + l;
    assert TrimStart(l) == l;
    TrimEndBehind(p, l);
  }

  /** "the X" and friends: each article is its own lower-case form. */
  lemma ArticlesAreLower()
    ensures Lower("the ") == "the " && Lower("a ") == "a " && Lower("an ") == "an "
  {
  }

  /** A title without whitespace keys as its lower-cased alphanumeric
      characters: punctuation is deleted, not turned into a space, so
      "Spider-Man" keys as "spiderman". No article can occur, since each
      article pattern ends in a space. */
  lemma NormalizeTitleOneWord(t: string)
    requires All(t, NotSpace)
    ensures NormalizeTitle(Some(t)) == Keep(Lower(t), IsAlnum)
  {
    var l := Lower(t);
    assert All(l, NotSpace);
    StripUntrimmed(l);
    NoSpaceAbsent("the ", l);
    NoSpaceAbsent("a ", l);
    NoSpaceAbsent("an ", l);
    RemoveAbsent(l, "the ");
    RemoveAbsent(l, "a ");
    RemoveAbsent(l, "an ");
    KeepSame(l, AlnumOrSpace, IsAlnum);
    CollapseNoSpace(Keep(l, IsAlnum));
  }

  /** A title already in key form is its own key: lower-case letters, digits
      and single inner spaces, with none of "the ", "a ", "an " inside. */
  lemma NormalizeTitleKeepsKey(t: string)
    requires All(t, NormalChar) && Collapsed(t)
    requires Absent("the ", t) && Absent("a ", t) && Absent("an ", t)
    ensures NormalizeTitle(Some(t)) == t
  {
    assert Lower(t) == t;
    StripUntrimmed(t);
    RemoveAbsent(t, "the ");
    RemoveAbsent(t, "a ");
    RemoveAbsent(t, "an ");
    KeepAll(t, AlnumOrSpace);
    CollapsedIsFixed(t);
  }

  /** `_truncate_overview`: an overview with more than `maxWords` words is cut
      to its first `maxWords` words, single-spaced, followed by "...". */
  function TruncateOverview(text: string, maxWords: nat): (r: string)
    ensures WordCount(text) <= maxWords ==> r == text
  {
    var ws := Words(text);
    if |ws| > maxWords then Join(ws[..maxWords], " ") + "..." else text
  }

  /** What a truncated overview splits into: the original leading words, the
      last kept one carrying the "..." marker; so exactly `maxWords` words. */
  lemma TruncatedWords(text: string, maxWords: nat)
    requires WordCount(text) > maxWords
    ensures maxWords == 0 ==> TruncateOverview(text, maxWords) == "..."
    ensures maxWords >= 1 ==>
      Words(TruncateOverview(text, maxWords))
        == Words(text)[..maxWords - 1] + [Words(text)[maxWords - 1] + "..."]
    ensures maxWords >= 1 ==> WordCount(TruncateOverview(text, maxWords)) == maxWords
    ensures Collapsed(TruncateOverview(text, maxWords))
  {
    var ws := Words(text);
    if maxWords >= 1 {
      var kept := ws[..maxWords];
      JoinAppendLast(kept, " ", "...");
      var marked := kept[..maxWords - 1] + [kept[maxWords - 1] + "..."];
      assert kept[..maxWords - 1] == ws[..maxWords - 1];
      assert IsWord(ws[maxWords - 1]);
      assert IsWord(kept[maxWords - 1] + "...");
      assert AllWords(marked) by {
        forall i | 0 <= i < |marked| ensures IsWord(marked[i]) {
          if i < maxWords - 1 { assert marked[i] == ws[i]; }
        }
      }
      WordsOfJoin(marked);
      JoinIsCollapsed(marked);
    }
  }

  /** With a limit of at least one word, truncation never leaves more than
      `maxWords` words and never shortens an overview below its own count. */
  lemma TruncateWordBounds(text: string, maxWords: nat)
    requires maxWords >= 1
    ensures WordCount(TruncateOverview(text, maxWords)) <= maxWords
    ensures WordCount(TruncateOverview(text, maxWords)) == (if WordCount(text) <= maxWords then WordCount(text) else maxWords)
  {
    if WordCount(text) > maxWords {
      TruncatedWords(text, maxWords);
    }
  }

  /** Truncating twice is truncating once. With a limit of zero words an
      overview becomes "...", which has one word and so truncates to itself. */
  lemma TruncateIdempotent(text: string, maxWords: nat)
    ensures TruncateOverview(TruncateOverview(text, maxWords), maxWords) == TruncateOverview(text, maxWords)
  {
    if maxWords == 0 {
      if WordCount(text) > 0 {
        TruncatedWords(text, 0);
        WordsNonEmpty("...");
      }
    } else {
      TruncateWordBounds(text, maxWords);
    }
  }

  /** The row-level rules of `preprocess_film_data`, in the order the code
      applies them: coalesce the title, drop unreleased statuses, coalesce
      release info, overview and genres, drop blank titles, drop a missing
      overview, drop one below the minimum word count, truncate it, drop adult
      titles. `None` means the row is dropped. */
  function CleanRow(row: MergedRow, cfg: Config): (r: Option<Film>)
    ensures r.Some? <==>
      && !(row.status.Some? && row.status.value in DroppedStatuses)
      && !(row.titleTmdb.Some? && row.titleTmdb.value in BlankTitles)
      && !(row.titleTmdb.None? && row.titleLb.Some? && row.titleLb.value in BlankTitles)
      && (row.overview.Some? || row.synopsis.Some?)
      && WordCount(if row.overview.Some? then row.overview.value else row.synopsis.value) >= cfg.minOverviewWords
      && row.adult != Some(true)
    ensures r.Some? ==> r.value.title == (if row.titleTmdb.Some? then row.titleTmdb else row.titleLb)
    ensures r.Some? ==>
      (r.value.releaseInfo ==
        if row.releaseDate.Some? then Some(ReleaseDate(row.releaseDate.value))
        else if row.year.Some? then Some(Year(row.year.value))
        else if row.status.Some? then Some(Status(row.status.value))
        else None)
    ensures r.Some? ==> r.value.genres == (if row.genresTmdb.Some? then row.genresTmdb else row.genresLb)
    ensures r.Some? ==>
      (r.value.overview ==
        TruncateOverview(if row.overview.Some? then row.overview.value else row.synopsis.value, cfg.maxOverviewWords))
    ensures r.Some? && 1 <= cfg.maxOverviewWords ==>
      WordCount(r.value.overview) <= cfg.maxOverviewWords
    ensures r.Some? && cfg.minOverviewWords <= cfg.maxOverviewWords ==>
      cfg.minOverviewWords <= WordCount(r.value.overview)
  {
    var title := row.titleTmdb.OrElse(row.titleLb);
    if row.status.Some? && row.status.value in DroppedStatuses then None
    else
      var releaseInfo := DateCell(row.releaseDate).OrElse(YearCell(row.year)).OrElse(StatusCell(row.status));
      var overview := row.overview.OrElse(row.synopsis);
      var genres := row.genresTmdb.OrElse(row.genresLb);
      if title.Some? && title.value in BlankTitles then None
      else if overview.None? then None
      else if WordCount(overview.value) < cfg.minOverviewWords then None
      else
        var truncated := TruncateOverview(overview.value, cfg.maxOverviewWords);
        if row.adult == Some(true) then None
        else
          SurvivingOverviewBounds(overview.value, cfg);
          Some(Film(title, releaseInfo, truncated, genres))
  }

  /** An overview that passed the minimum-word filter keeps between the two
      limits once truncated (the filter runs before truncation). */
  lemma SurvivingOverviewBounds(text: string, cfg: Config)
    requires WordCount(text) >= cfg.minOverviewWords
    ensures 1 <= cfg.maxOverviewWords ==>
      WordCount(TruncateOverview(text, cfg.maxOverviewWords)) <= cfg.maxOverviewWords
    ensures cfg.minOverviewWords <= cfg.maxOverviewWords ==>
      cfg.minOverviewWords <= WordCount(TruncateOverview(text, cfg.maxOverviewWords))
  {
    if 1 <= cfg.maxOverviewWords {
      TruncateWordBounds(text, cfg.maxOverviewWords);
    }
  }

  function DateCell(date: Option<string>): Option<ReleaseInfo> {
    if date.Some? then Some(ReleaseDate(date.value)) else None
  }

  function YearCell(year: Option<int>): Option<ReleaseInfo> {
    if year.Some? then Some(Year(year.value)) else None
  }

  function StatusCell(status: Option<string>): Option<ReleaseInfo> {
    if status.Some? then Some(Status(status.value)) else None
  }

  /** The set of keys carried by `rows`. */
  function KeysOf<T, K>(rows: seq<T>, key: T -> K): set<K> {
    set i | 0 <= i < |rows| :: key(rows[i])
  }

  /** `rows[i]` is the first row with its key. */
  predicate IsFirstOfKey<T, K(==)>(rows: seq<T>, key: T -> K, i: int)
    requires 0 <= i < |rows|
  {
    forall j :: 0 <= j < i ==> key(rows[j]) != key(rows[i])
  }

  /** Reference meaning of `drop_duplicates(subset=..., keep='first')`: walk
      the rows in order and keep a row exactly when no earlier row had its key. */
  function KeepFirst<T, K(==)>(rows: seq<T>, key: T -> K): seq<T> {
    if |rows| == 0 then []
    else
      var before := rows[..|rows| - 1];
      var last := rows[|rows| - 1];
      if key(last) in KeysOf(before, key) then KeepFirst(before, key)
      else KeepFirst(before, key) + [last]
  }

  /** Adding a row adds its key. */
  lemma KeysOfSnoc<T, K>(rows: seq<T>, x: T, key: T -> K)
    ensures KeysOf(rows + [x], key) == KeysOf(rows, key) + {key(x)}
  {
    var r := rows + [x];
    forall k | k in KeysOf(r, key) ensures k in KeysOf(rows, key) + {key(x)} {
      var i :| 0 <= i < |r| && key(r[i]) == k;
      if i < |rows| { assert r[i] == rows[i]; }
    }
    forall k | k in KeysOf(rows, key) ensures k in KeysOf(r, key) {
      var i :| 0 <= i < |rows| && key(rows[i]) == k;
      assert r[i] == rows[i];
    }
    assert r[|rows|] == x;
  }

  /** Whether a row is the first with its key depends only on the rows before it. */
  lemma FirstOfKeyInPrefix<T, K>(rows: seq<T>, key: T -> K, n: nat, i: nat)
    requires i < n <= |rows|
    ensures IsFirstOfKey(rows, key, i) <==> IsFirstOfKey(rows[..n], key, i)
  {
    assert forall j :: 0 <= j <= i ==> rows[..n][j] == rows[j];
  }

  /** The last row is first with its key exactly when no earlier row has that key. */
  lemma LastIsFirstOfKey<T, K>(rows: seq<T>, key: T -> K)
    requires |rows| > 0
    ensures IsFirstOfKey(rows, key, |rows| - 1) <==> key(rows[|rows| - 1]) !in KeysOf(rows[..|rows| - 1], key)
  {
    var n := |rows| - 1;
    if key(rows[n]) in KeysOf(rows[..n], key) {
      var m :| 0 <= m < n && key(rows[..n][m]) == key(rows[n]);
      assert rows[..n][m] == rows[m];
    } else {
      forall j | 0 <= j < n ensures key(rows[j]) != key(rows[n]) {
        assert rows[..n][j] == rows[j];
        assert key(rows[..n][j]) in KeysOf(rows[..n], key);
      }
    }
  }

  /** Keep-first deduplication leaves pairwise distinct keys and loses no key. */
  lemma {:induction false} KeepFirstKeys<T, K>(rows: seq<T>, key: T -> K)
    ensures KeysOf(KeepFirst(rows, key), key) == KeysOf(rows, key)
    ensures forall a, b :: 0 <= a < b < |KeepFirst(rows, key)| ==>
      key(KeepFirst(rows, key)[a]) != key(KeepFirst(rows, key)[b])
    ensures |KeepFirst(rows, key)| <= |rows|
    decreases |rows|
  {
    if |rows| > 0 {
      var n := |rows| - 1;
      var before, last := rows[..n], rows[n];
      assert rows == before + [last];
      KeepFirstKeys(before, key);
      KeysOfSnoc(before, last, key);
      var p := KeepFirst(before, key);
      if key(last) !in KeysOf(before, key) {
        var r := p + [last];
        KeysOfSnoc(p, last, key);
        forall a, b | 0 <= a < b < |r| ensures key(r[a]) != key(r[b]) {
          assert r[a] == p[a];
          if b == |p| {
            assert key(p[a]) in KeysOf(p, key);
          } else {
            assert r[b] == p[b];
          }
        }
      }
    }
  }

  /** `out` is `rows` read at the strictly increasing positions `idx`, which
      are exactly the positions of rows that are first with their key. */
  ghost predicate FirstsAt<T, K>(rows: seq<T>, key: T -> K, out: seq<T>, idx: seq<nat>) {
    && |idx| == |out|
    && (forall k :: 0 <= k < |idx| ==>
          idx[k] < |rows| && out[k] == rows[idx[k]] && IsFirstOfKey(rows, key, idx[k]))
    && (forall k, l :: 0 <= k < l < |idx| ==> idx[k] < idx[l])
    && (forall j :: 0 <= j < |rows| && IsFirstOfKey(rows, key, j) ==> j in idx)
  }

  /** Keep-first deduplication is the subsequence of first-of-key rows: its
      result is `rows` at strictly increasing positions, each first with its
      key, and every first-of-key position is among them. */
  lemma {:induction false} KeepFirstOrigin<T, K>(rows: seq<T>, key: T -> K) returns (idx: seq<nat>)
    ensures FirstsAt(rows, key, KeepFirst(rows, key), idx)
    decreases |rows|
  {
    if |rows| == 0 {
      return [];
    }
    var n := |rows| - 1;
    var p := KeepFirstOrigin(rows[..n], key);
    if key(rows[n]) in KeysOf(rows[..n], key) {
      FirstsAtSkip(rows, key, KeepFirst(rows[..n], key), p);
      idx := p;
    } else {
      FirstsAtTake(rows, key, KeepFirst(rows[..n], key), p);
      idx := p + [n];
    }
  }

  /** A last row whose key was already seen adds no first-of-key position. */
  lemma FirstsAtSkip<T, K>(rows: seq<T>, key: T -> K, out: seq<T>, idx: seq<nat>)
    requires |rows| > 0 && key(rows[|rows| - 1]) in KeysOf(rows[..|rows| - 1], key)
    requires FirstsAt(rows[..|rows| - 1], key, out, idx)
    ensures FirstsAt(rows, key, out, idx)
  {
    var n := |rows| - 1;
    var before := rows[..n];
    LastIsFirstOfKey(rows, key);
    forall k | 0 <= k < |idx|
      ensures idx[k] < |rows| && out[k] == rows[idx[k]] && IsFirstOfKey(rows, key, idx[k])
    {
      FirstOfKeyInPrefix(rows, key, n, idx[k]);
      assert before[idx[k]] == rows[idx[k]];
    }
    forall j | 0 <= j < |rows| && IsFirstOfKey(rows, key, j)
      ensures j in idx
    {
      FirstOfKeyInPrefix(rows, key, n, j);
    }
  }

  /** A last row with a new key is a first-of-key position, after all earlier ones. */
  lemma FirstsAtTake<T, K>(rows: seq<T>, key: T -> K, out: seq<T>, idx: seq<nat>)
    requires |rows| > 0 && key(rows[|rows| - 1]) !in KeysOf(rows[..|rows| - 1], key)
    requires FirstsAt(rows[..|rows| - 1], key, out, idx)
    ensures FirstsAt(rows, key, out + [rows[|rows| - 1]], idx + [|rows| - 1])
  {
    var n := |rows| - 1;
    LastIsFirstOfKey(rows, key);
    forall j | 0 <= j < n
      ensures rows[..n][j] == rows[j]
      ensures IsFirstOfKey(rows, key, j) <==> IsFirstOfKey(rows[..n], key, j)
    {
      FirstOfKeyInPrefix(rows, key, n, j);
    }
    var out', idx' := out + [rows[n]], idx + [n];
    assert forall k :: 0 <= k < |idx| ==> out'[k] == out[k] && idx'[k] == idx[k];
  }

  /** Keep-first deduplication retains every row that is first with its key,
      and only such rows. */
  lemma {:induction false} KeepFirstRetainsFirsts<T, K>(rows: seq<T>, key: T -> K)
    ensures forall i :: 0 <= i < |rows| && IsFirstOfKey(rows, key, i) ==> rows[i] in KeepFirst(rows, key)
    ensures forall x :: x in KeepFirst(rows, key) ==>
      exists i :: 0 <= i < |rows| && rows[i] == x && IsFirstOfKey(rows, key, i)
    decreases |rows|
  {
    if |rows| > 0 {
      var n := |rows| - 1;
      var before, last := rows[..n], rows[n];
      KeepFirstRetainsFirsts(before, key);
      LastIsFirstOfKey(rows, key);
      var p := KeepFirst(before, key);
      var r := KeepFirst(rows, key);
      assert forall x :: x in p ==> x in r;
      forall i | 0 <= i < |rows| && IsFirstOfKey(rows, key, i) ensures rows[i] in r {
        if i < n {
          FirstOfKeyInPrefix(rows, key, n, i);
          assert before[i] == rows[i];
        }
      }
      forall x | x in r ensures exists i :: 0 <= i < |rows| && rows[i] == x && IsFirstOfKey(rows, key, i) {
        if x in p {
          var i :| 0 <= i < n && before[i] == x && IsFirstOfKey(before, key, i);
          FirstOfKeyInPrefix(rows, key, n, i);
          assert rows[i] == x;
        } else {
          assert x == last && rows[n] == x;
        }
      }
    }
  }

  /** `drop_duplicates(keep='first')` as pandas computes it: one pass with a
      set of keys already seen. Used on the raw Letterboxd rows (key: title)
      and on the merged table (key: normalised title). */
  method DropDuplicates<T, K(==)>(rows: seq<T>, key: T -> K) returns (out: seq<T>)
    ensures out == KeepFirst(rows, key)
    ensures KeysOf(out, key) == KeysOf(rows, key)
    ensures forall a, b :: 0 <= a < b < |out| ==> key(out[a]) != key(out[b])
  {
    var seen: set<K> := {};
    out := [];
    var i := 0;
    while i < |rows|
      invariant 0 <= i <= |rows|
      invariant seen == KeysOf(rows[..i], key)
      invariant out == KeepFirst(rows[..i], key)
    {
      var row := rows[i];
      assert rows[..i + 1][..i] == rows[..i];
      assert KeysOf(rows[..i + 1], key) == seen + {key(row)} by {
        forall k | k in KeysOf(rows[..i + 1], key) ensures k in seen + {key(row)} {
          var j :| 0 <= j < i + 1 && key(rows[..i + 1][j]) == k;
          if j < i { assert rows[..i + 1][j] == rows[..i][j]; }
        }
        forall k | k in seen ensures k in KeysOf(rows[..i + 1], key) {
          var j :| 0 <= j < i && key(rows[..i][j]) == k;
          assert rows[..i + 1][j] == rows[..i][j];
        }
        assert rows[..i + 1][i] == row;
      }
      if key(row) !in seen {
        out := out + [row];
        seen := seen + {key(row)};
      }
      i := i + 1;
    }
    assert rows[..i] == rows;
    KeepFirstKeys(rows, key);
  }

  /** The row rules applied to every row, dropped rows removed, order kept. */
  function CleanRows(rows: seq<MergedRow>, cfg: Config): (r: seq<Film>)
    ensures |r| <= |rows|
    ensures forall f :: f in r <==> exists row :: row in rows && CleanRow(row, cfg) == Some(f)
  {
    if |rows| == 0 then []
    else
      var rest := CleanRows(rows[1..], cfg);
      assert forall row :: row in rows <==> row == rows[0] || row in rows[1..];
      match CleanRow(rows[0], cfg)
      case None => rest
      case Some(f) => [f] + rest
  }

  /** Cleaning a table with one more row at the end appends that row's film,
      if it survives, to the cleaned table: row order is kept and nothing is
      duplicated or reordered. */
  lemma {:induction false} CleanRowsSnoc(rows: seq<MergedRow>, x: MergedRow, cfg: Config)
    ensures CleanRows(rows + [x], cfg) ==
      CleanRows(rows, cfg) + (if CleanRow(x, cfg).Some? then [CleanRow(x, cfg).value] else [])
    decreases |rows|
  {
    if |rows| == 0 {
      assert rows + [x] == [x];
    } else {
      assert (rows + [x])[0] == rows[0];
      assert (rows + [x])[1..] == rows[1..] + [x];
      CleanRowsSnoc(rows[1..], x, cfg);
    }
  }

  /** The row-level part of `preprocess_film_data`: deduplicate the merged
      table by normalised title, keeping the first row, then apply the row rules. */
  function PreprocessRows(merged: seq<MergedRow>, cfg: Config): (r: seq<Film>)
    ensures |r| <= |merged|
  {
    KeepFirstKeys(merged, (row: MergedRow) => row.titleNorm);
    CleanRows(KeepFirst(merged, (row: MergedRow) => row.titleNorm), cfg)
  }

  /** What survives preprocessing: films only from rows that were first with
      their normalised title and pass every rule; no blank title, no dropped
      status, no adult film, and an overview whose word count lies within the
      configured limits. */
  lemma PreprocessedFilms(merged: seq<MergedRow>, cfg: Config, f: Film)
    requires f in PreprocessRows(merged, cfg)
    ensures exists i :: (0 <= i < |merged|
                         && IsFirstOfKey(merged, (row: MergedRow) => row.titleNorm, i)
                         && CleanRow(merged[i], cfg) == Some(f))
    ensures f.title.Some? ==> f.title.value !in BlankTitles
    ensures f.releaseInfo.Some? && f.releaseInfo.value.Status? ==> f.releaseInfo.value.status !in DroppedStatuses
    ensures 1 <= cfg.maxOverviewWords ==> WordCount(f.overview) <= cfg.maxOverviewWords
    ensures cfg.minOverviewWords <= cfg.maxOverviewWords ==> cfg.minOverviewWords <= WordCount(f.overview)
  {
    var key := (row: MergedRow) => row.titleNorm;
    var kept := KeepFirst(merged, key);
    var row :| row in kept && CleanRow(row, cfg) == Some(f);
    KeepFirstRetainsFirsts(merged, key);
    var i :| 0 <= i < |merged| && merged[i] == row && IsFirstOfKey(merged, key, i);
  }

  /** Conversely, the first row with a given normalised title reaches the
      output whenever the row rules accept it. */
  lemma PreprocessKeepsAccepted(merged: seq<MergedRow>, cfg: Config, i: int)
    requires 0 <= i < |merged|
    requires IsFirstOfKey(merged, (row: MergedRow) => row.titleNorm, i)
    requires CleanRow(merged[i], cfg).Some?
    ensures CleanRow(merged[i], cfg).value in PreprocessRows(merged, cfg)
  {
    KeepFirstRetainsFirsts(merged, (row: MergedRow) => row.titleNorm);
  }
}
