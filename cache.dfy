/**
 * The content-addressed attachment cache of `async_download`: the `cache`
 * table maps the digest of an attachment's bytes to the URL it was first
 * fetched from and the name of the file holding the bytes in the `.cache`
 * folder. Equal content is stored once, whatever URL it comes from.
 */
module Cache {
  import opened Wrappers
  import opened Naming

  newtype byte = x: int | 0 <= x < 256
  type Bytes = seq<byte>
  /** A SHA-256 hex digest; the digest function itself is a parameter of the cache. */
  type Digest = string
  type Url = string
  type Filename = string

  /** The rest of a `cache` row, whose primary key is the digest. */
  datatype Entry = Entry(url: Url, file: Filename)

  /**
   * What the outside world decides during one download: the body of a
   * 200 response (`None` for any other status or a transport error), the
   * random token drawn for a new name, and whether the disk accepts the write.
   */
  datatype Outcome = Outcome(fetched: Option<Bytes>, token: string, diskOk: bool)

  /** The `cache` table and the `.cache` folder. */
  datatype Store = Store(index: map<Digest, Entry>, files: map<Filename, Bytes>)

  /** A store after one download, and the filename it returned (or `None`). */
  datatype Resolution = Resolution(store: Store, ref: Option<Filename>)

  /** A store after several downloads, and their results in order. */
  datatype Batch = Batch(store: Store, refs: seq<Option<Filename>>)

  /**
   * The file is written: `open('.cache/' + f, 'wb')` raises for a name
   * containing `/`, since the folder has no sub-directories; `diskOk` is
   * false when `open` raises for any other reason.
   */
  predicate Writable(f: Filename, diskOk: bool) {
    diskOk && '/' !in f
  }

  /** The filenames the `cache` table refers to. */
  function Filenames(index: map<Digest, Entry>): set<Filename> {
    set h | h in index :: index[h].file
  }

  /**
   * The invariant every download keeps: the folder holds exactly the files
   * the table names, and every name is a generated cache filename.
   */
  predicate Consistent(s: Store) {
    && s.files.Keys == Filenames(s.index)
    && forall h :: h in s.index ==> IsCacheFilename(s.index[h].file) && '/' !in s.index[h].file
  }

  /** Every file holds content whose digest is the key of its row. */
  predicate Intact(s: Store, digest: Bytes -> Digest) {
    forall h :: h in s.index && s.index[h].file in s.files ==> digest(s.files[s.index[h].file]) == h
  }

  /** The files whose content has digest `d`. */
  function FilesWithDigest(s: Store, digest: Bytes -> Digest, d: Digest): set<Filename> {
    set f | f in s.files && digest(s.files[f]) == d
  }

  /** The name a cache miss for `url` would write (a fresh token gives an unused one). */
  function NewName(url: Url, o: Outcome): (f: Filename)
    ensures IsToken(o.token) ==> IsCacheFilename(f)
  {
    var f := CacheFilename(o.token, Extension(url));
    assert IsToken(o.token) ==> IsCacheFilename(f) by {
      if IsToken(o.token) {
        GeneratedNameIsCacheFilename(o.token, Extension(url));
      }
    }
    f
  }

  /** The token of `o` does not collide with a file already in the folder. */
  predicate NameIsFresh(s: Store, url: Url, o: Outcome) {
    NewName(url, o) !in s.files
  }

  /** One `async_download(url)` on store `s`. */
  function ResolveStep(s: Store, digest: Bytes -> Digest, url: Url, o: Outcome): (r: Resolution)
    ensures o.fetched.None? ==> r == Resolution(s, None)
    ensures forall h :: h in s.index ==> h in r.store.index && r.store.index[h] == s.index[h]
    ensures s.files.Keys <= r.store.files.Keys
    ensures r.store != s ==> o.fetched.Some? && r.store.index.Keys == s.index.Keys + {digest(o.fetched.value)}
    ensures r.ref.Some? ==>
      && o.fetched.Some?
      && digest(o.fetched.value) in r.store.index
      && r.store.index[digest(o.fetched.value)].file == r.ref.value
  {
    match o.fetched
    case None => Resolution(s, None)
    case Some(content) =>
      var h := digest(content);
      if h in s.index then Resolution(s, Some(s.index[h].file))
      else
        var f := NewName(url, o);
        if Writable(f, o.diskOk)
        then Resolution(Store(s.index[h := Entry(url, f)], s.files[f := content]), Some(f))
        else Resolution(s, None)
  }

  /** Downloads `urls` one after the other, `env[i]` deciding the outcome of the `i`-th. */
  function ResolveEach(s: Store, digest: Bytes -> Digest, urls: seq<Url>, env: seq<Outcome>): (b: Batch)
    requires |env| == |urls|
    ensures |b.refs| == |urls|
    decreases |urls|
  {
    if |urls| == 0 then Batch(s, [])
    else
      var n := |urls| - 1;
      var prev := ResolveEach(s, digest, urls[..n], env[..n]);
      var last := ResolveStep(prev.store, digest, urls[n], env[n]);
      Batch(last.store, prev.refs + [last.ref])
  }

  /** The batch of the first `i + 1` downloads is the batch of the first `i`, then one more. */
  lemma ResolveEachStep(s: Store, digest: Bytes -> Digest, urls: seq<Url>, env: seq<Outcome>, i: nat)
    requires |env| == |urls| && i < |urls|
    ensures var prev := ResolveEach(s, digest, urls[..i], env[..i]);
      var last := ResolveStep(prev.store, digest, urls[i], env[i]);
      ResolveEach(s, digest, urls[..i + 1], env[..i + 1]) == Batch(last.store, prev.refs + [last.ref])
  {
    assert urls[..i + 1][..i] == urls[..i] && env[..i + 1][..i] == env[..i];
  }

  /** A failed fetch returns `None` and touches neither the table nor the folder. */
  lemma FailedFetch(s: Store, digest: Bytes -> Digest, url: Url, o: Outcome)
    requires o.fetched.None?
    ensures ResolveStep(s, digest, url, o) == Resolution(s, None)
  {
  }

  /**
   * A hit returns the name already stored for the digest and writes nothing,
   * so the row keeps the URL of the first download of that content.
   */
  lemma CacheHit(s: Store, digest: Bytes -> Digest, url: Url, o: Outcome)
    requires o.fetched.Some? && digest(o.fetched.value) in s.index
    ensures var r := ResolveStep(s, digest, url, o);
      && r.ref == Some(s.index[digest(o.fetched.value)].file)
      && r.store == s
  {
  }

  /**
   * A miss that can write adds exactly one row, digest to (URL, new name),
   * writes the bytes under the new name and returns it; every other row and
   * every other file stays as it was.
   */
  lemma CacheMiss(s: Store, digest: Bytes -> Digest, url: Url, o: Outcome)
    requires o.fetched.Some? && digest(o.fetched.value) !in s.index
    requires Writable(NewName(url, o), o.diskOk)
    ensures var r, d, f := ResolveStep(s, digest, url, o), digest(o.fetched.value), NewName(url, o);
      && r.ref == Some(f)
      && r.store.index.Keys == s.index.Keys + {d}
      && r.store.index[d] == Entry(url, f)
      && (forall h :: h in s.index ==> r.store.index[h] == s.index[h])
      && r.store.files.Keys == s.files.Keys + {f}
      && r.store.files[f] == o.fetched.value
      && (forall g :: g in s.files && g != f ==> r.store.files[g] == s.files[g])
  {
  }

  /** A miss whose file cannot be opened returns `None` and adds no row. */
  lemma WriteFailure(s: Store, digest: Bytes -> Digest, url: Url, o: Outcome)
    requires o.fetched.Some? && digest(o.fetched.value) !in s.index
    requires !Writable(NewName(url, o), o.diskOk)
    ensures ResolveStep(s, digest, url, o) == Resolution(s, None)
  {
  }

  /**
   * A miss on a URL whose extension holds `/` (as when the file part of the
   * URL has no dot, see `ExtensionMayContainSlash`) stores nothing: the new
   * name points into a directory of `.cache` that does not exist, and the
   * download returns `None`.
   */
  lemma SlashExtensionNotStored(s: Store, digest: Bytes -> Digest, url: Url, o: Outcome)
    requires o.fetched.Some? && digest(o.fetched.value) !in s.index
    requires '/' in Extension(url)
    ensures ResolveStep(s, digest, url, o) == Resolution(s, None)
  {
    var e := Extension(url);
    var k :| 0 <= k < |e| && e[k] == '/';
    assert NewName(url, o)[|o.token| + 1 + k] == '/';
  }

  /**
   * What a batch promises: one result per URL, in order; rows and files are
   * only ever added; a failed fetch gives `None` in its own place; and every
   * name returned is the one the table holds for that content at the end.
   */
  lemma {:induction false} ResolveEachFacts(s: Store, digest: Bytes -> Digest, urls: seq<Url>, env: seq<Outcome>)
    requires |env| == |urls|
    ensures var b := ResolveEach(s, digest, urls, env);
      && |b.refs| == |urls|
      && s.files.Keys <= b.store.files.Keys
      && (forall h :: h in s.index ==> h in b.store.index && b.store.index[h] == s.index[h])
      && (forall i :: 0 <= i < |urls| && env[i].fetched.None? ==> b.refs[i].None?)
      && (forall i :: 0 <= i < |urls| && b.refs[i].Some? ==>
            && env[i].fetched.Some?
            && digest(env[i].fetched.value) in b.store.index
            && b.store.index[digest(env[i].fetched.value)].file == b.refs[i].value)
    decreases |urls|
  {
    if |urls| > 0 {
      var n := |urls| - 1;
      ResolveEachFacts(s, digest, urls[..n], env[..n]);
    }
  }

  /**
   * The `i`-th result of a batch is what the `i`-th download returns on the
   * store the first `i` downloads left: results come back in URL order.
   */
  lemma {:induction false} ResolveEachAt(s: Store, digest: Bytes -> Digest, urls: seq<Url>, env: seq<Outcome>, i: nat)
    requires |env| == |urls| && i < |urls|
    ensures ResolveEach(s, digest, urls, env).refs[i]
         == ResolveStep(ResolveEach(s, digest, urls[..i], env[..i]).store, digest, urls[i], env[i]).ref
    decreases |urls|
  {
    var n := |urls| - 1;
    if i < n {
      ResolveEachAt(s, digest, urls[..n], env[..n], i);
      assert urls[..n][..i] == urls[..i] && env[..n][..i] == env[..i];
    } else {
      assert urls[..i] == urls[..n] && env[..i] == env[..n];
    }
  }

  /** The sequence without its `i`-th element. */
  function RemoveAt<T>(xs: seq<T>, i: nat): (ys: seq<T>)
    requires i < |xs|
    ensures |ys| == |xs| - 1
  {
    xs[..i] + xs[i + 1..]
  }

  /**
   * A failed download of one attachment does not disturb the others: the
   * batch ends in the same store, and the other results are those of the
   * batch without that attachment.
   */
  lemma {:induction false} FailureIsIsolated(s: Store, digest: Bytes -> Digest, urls: seq<Url>, env: seq<Outcome>, i: nat)
    requires |env| == |urls| && i < |urls| && env[i].fetched.None?
    ensures var all := ResolveEach(s, digest, urls, env);
      var others := ResolveEach(s, digest, RemoveAt(urls, i), RemoveAt(env, i));
      && all.refs[i] == None
      && all.store == others.store
      && RemoveAt(all.refs, i) == others.refs
    decreases |urls|
  {
    var n := |urls| - 1;
    if i == n {
      var prev := ResolveEach(s, digest, urls[..n], env[..n]);
      assert RemoveAt(urls, i) == urls[..n] && RemoveAt(env, i) == env[..n];
      assert RemoveAt(prev.refs + [None], i) == prev.refs;
    } else {
      FailureIsIsolated(s, digest, urls[..n], env[..n], i);
      RemoveBeforeLast(s, digest, urls, env, i);
    }
  }

  /** The step of `FailureIsIsolated` when the failed download is not the last one. */
  lemma RemoveBeforeLast(s: Store, digest: Bytes -> Digest, urls: seq<Url>, env: seq<Outcome>, i: nat)
    requires |env| == |urls| && i < |urls| - 1
    requires var n := |urls| - 1;
      var all := ResolveEach(s, digest, urls[..n], env[..n]);
      var others := ResolveEach(s, digest, RemoveAt(urls[..n], i), RemoveAt(env[..n], i));
      all.store == others.store && RemoveAt(all.refs, i) == others.refs
    ensures var all := ResolveEach(s, digest, urls, env);
      var others := ResolveEach(s, digest, RemoveAt(urls, i), RemoveAt(env, i));
      all.store == others.store && RemoveAt(all.refs, i) == others.refs
  {
    var n := |urls| - 1;
    RemoveBeforeEnd(urls, i);
    RemoveBeforeEnd(env, i);
    ResolveEachSnoc(s, digest, RemoveAt(urls[..n], i), RemoveAt(env[..n], i), urls[n], env[n]);
    var prev := ResolveEach(s, digest, urls[..n], env[..n]);
    RemoveBeforeEnd(prev.refs + [ResolveStep(prev.store, digest, urls[n], env[n]).ref], i);
  }

  /** Removing an element before the last one keeps the last one last. */
  lemma RemoveBeforeEnd<T>(xs: seq<T>, i: nat)
    requires i < |xs| - 1
    ensures RemoveAt(xs, i) == RemoveAt(xs[..|xs| - 1], i) + [xs[|xs| - 1]]
  {
  }

  /** A batch of one more download, written with the extra URL appended. */
  lemma ResolveEachSnoc(s: Store, digest: Bytes -> Digest, urls: seq<Url>, env: seq<Outcome>, url: Url, o: Outcome)
    requires |env| == |urls|
    ensures var prev := ResolveEach(s, digest, urls, env);
      var last := ResolveStep(prev.store, digest, url, o);
      ResolveEach(s, digest, urls + [url], env + [o]) == Batch(last.store, prev.refs + [last.ref])
  {
    assert (urls + [url])[..|urls|] == urls && (env + [o])[..|urls|] == env;
  }

  /** Within a batch, two attachments with the same bytes come back under the same name. */
  lemma SameContentSameName(s: Store, digest: Bytes -> Digest, urls: seq<Url>, env: seq<Outcome>, i: nat, j: nat)
    requires |env| == |urls| && i < |urls| && j < |urls|
    requires env[i].fetched.Some? && env[i].fetched == env[j].fetched
    ensures var b := ResolveEach(s, digest, urls, env);
      b.refs[i].Some? && b.refs[j].Some? ==> b.refs[i] == b.refs[j]
  {
    ResolveEachFacts(s, digest, urls, env);
  }

  /** Adding a row for a new digest adds its filename to the referenced names. */
  lemma FilenamesInsert(index: map<Digest, Entry>, h: Digest, e: Entry)
    requires h !in index
    ensures Filenames(index[h := e]) == Filenames(index) + {e.file}
  {
    var updated := index[h := e];
    forall f | f in Filenames(updated) ensures f in Filenames(index) + {e.file} {
      var k :| k in updated && updated[k].file == f;
      if k != h { assert f in Filenames(index); }
    }
    forall f | f in Filenames(index) ensures f in Filenames(updated) {
      var k :| k in index && index[k].file == f;
      assert updated[k].file == f;
    }
    assert updated[h].file == e.file;
  }

  /** A download keeps the store consistent. */
  lemma ResolveKeepsConsistent(s: Store, digest: Bytes -> Digest, url: Url, o: Outcome)
    requires Consistent(s) && IsToken(o.token)
    ensures Consistent(ResolveStep(s, digest, url, o).store)
  {
    var r := ResolveStep(s, digest, url, o);
    if r.store != s {
      var h := digest(o.fetched.value);
      var f := NewName(url, o);
      FilenamesInsert(s.index, h, Entry(url, f));
      GeneratedNameIsCacheFilename(o.token, Extension(url));
    }
  }

  /** A download whose new name (if it needs one) is unused keeps every file intact. */
  lemma ResolveKeepsIntact(s: Store, digest: Bytes -> Digest, url: Url, o: Outcome)
    requires Consistent(s) && Intact(s, digest) && NameIsFresh(s, url, o)
    ensures Intact(ResolveStep(s, digest, url, o).store, digest)
  {
    var r := ResolveStep(s, digest, url, o);
    if r.store != s {
      var content := o.fetched.value;
      var d := digest(content);
      var f := NewName(url, o);
      forall h | h in r.store.index && r.store.index[h].file in r.store.files
        ensures digest(r.store.files[r.store.index[h].file]) == h
      {
        if h != d {
          var g := s.index[h].file;
          assert g in Filenames(s.index);
          assert g != f;
        }
      }
    }
  }

  /** In an intact consistent store, the files with a given digest are the one its row names. */
  lemma {:induction false} OneFilePerDigest(s: Store, digest: Bytes -> Digest, d: Digest)
    requires Consistent(s) && Intact(s, digest)
    ensures d in s.index ==> FilesWithDigest(s, digest, d) == {s.index[d].file}
    ensures d !in s.index ==> FilesWithDigest(s, digest, d) == {}
  {
    forall f | f in FilesWithDigest(s, digest, d) ensures d in s.index && f == s.index[d].file {
      assert f in Filenames(s.index);
      var h :| h in s.index && s.index[h].file == f;
      assert digest(s.files[f]) == h;
    }
    if d in s.index {
      var f := s.index[d].file;
      assert f in Filenames(s.index);
      assert f in FilesWithDigest(s, digest, d);
    }
  }

  /**
   * Deduplication: once some bytes have been stored, a second download of
   * the same bytes, from any URL, changes nothing and returns the same name,
   * and exactly one file in the folder has their digest.
   */
  lemma Dedup(s: Store, digest: Bytes -> Digest, content: Bytes,
              url1: Url, o1: Outcome, url2: Url, o2: Outcome)
    requires Consistent(s) && Intact(s, digest) && IsToken(o1.token) && NameIsFresh(s, url1, o1)
    requires o1.fetched == Some(content) && o2.fetched == Some(content)
    requires ResolveStep(s, digest, url1, o1).ref.Some?
    ensures var first := ResolveStep(s, digest, url1, o1);
      var second := ResolveStep(first.store, digest, url2, o2);
      && second == Resolution(first.store, first.ref)
      && second.store.index.Keys == s.index.Keys + {digest(content)}
      && FilesWithDigest(second.store, digest, digest(content)) == {second.ref.value}
  {
    var first := ResolveStep(s, digest, url1, o1);
    ResolveKeepsConsistent(s, digest, url1, o1);
    ResolveKeepsIntact(s, digest, url1, o1);
    OneFilePerDigest(first.store, digest, digest(content));
  }

  /** A batch of downloads keeps the store consistent. */
  lemma {:induction false} ResolveEachKeepsConsistent(s: Store, digest: Bytes -> Digest, urls: seq<Url>, env: seq<Outcome>)
    requires Consistent(s) && |env| == |urls|
    requires forall i :: 0 <= i < |env| ==> IsToken(env[i].token)
    ensures Consistent(ResolveEach(s, digest, urls, env).store)
    decreases |urls|
  {
    if |urls| > 0 {
      var n := |urls| - 1;
      ResolveEachKeepsConsistent(s, digest, urls[..n], env[..n]);
      ResolveKeepsConsistent(ResolveEach(s, digest, urls[..n], env[..n]).store, digest, urls[n], env[n]);
    }
  }

  /**
   * The cache as the bot holds it: `index` is the `cache` table of
   * `cache_db.sqlite`, `files` the `.cache` folder.
   */
  class AttachmentCache {
    const digest: Bytes -> Digest
    var index: map<Digest, Entry>
    var files: map<Filename, Bytes>

    function Snapshot(): Store
      reads this
    {
      Store(index, files)
    }

    predicate Valid()
      reads this
    {
      Consistent(Snapshot())
    }

    /** An empty table and an empty folder, as `create_cache_table` leaves them the first time. */
    constructor (digest: Bytes -> Digest)
      ensures this.digest == digest && index == map[] && files == map[]
      ensures Valid() && Intact(Snapshot(), digest)
    {
      this.digest := digest;
      index := map[];
      files := map[];
    }

    /**
     * `async_download(url)`, given what the network returned, the random
     * token and whether the disk accepts a write: look the digest up, and on
     * a miss write the file, then insert the row. What it does in each case
     * is stated by the lemmas about `ResolveStep`.
     */
    method Resolve(url: Url, fetched: Option<Bytes>, token: string, diskOk: bool) returns (r: Option<Filename>)
      requires Valid() && IsToken(token)
      modifies this
      ensures Valid()
      ensures r.Some? ==> IsCacheFilename(r.value) && r.value != ""
      ensures Resolution(Snapshot(), r) == ResolveStep(old(Snapshot()), digest, url, Outcome(fetched, token, diskOk))
    {
      ResolveKeepsConsistent(Snapshot(), digest, url, Outcome(fetched, token, diskOk));
      if fetched.None? {
        return None;
      }
      var content := fetched.value;
      var h := digest(content);
      if h in index {
        return Some(index[h].file);
      }
      var filename := CacheFilename(token, Extension(url));
      if !Writable(filename, diskOk) {
        return None;
      }
      files := files[filename := content];
      index := index[h := Entry(url, filename)];
      return Some(filename);
    }

    /** Downloads `urls` in order, as the list of tasks given to `asyncio.gather`. */
    method ResolveAll(urls: seq<Url>, env: seq<Outcome>) returns (refs: seq<Option<Filename>>)
      requires Valid() && |env| == |urls|
      requires forall i :: 0 <= i < |env| ==> IsToken(env[i].token)
      modifies this
      ensures Valid()
      ensures Batch(Snapshot(), refs) == ResolveEach(old(Snapshot()), digest, urls, env)
    {
      refs := [];
      var i := 0;
      while i < |urls|
        invariant 0 <= i <= |urls|
        invariant Valid()
        invariant Batch(Snapshot(), refs) == ResolveEach(old(Snapshot()), digest, urls[..i], env[..i])
      {
        var o := env[i];
        ResolveEachStep(old(Snapshot()), digest, urls, env, i);
        var r := Resolve(urls[i], o.fetched, o.token, o.diskOk);
        refs := refs + [r];
        i := i + 1;
      }
      assert urls[..i] == urls && env[..i] == env;
    }
  }
}
