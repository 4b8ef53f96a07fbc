// fetch.py: the file cache in front of the network. Cache files are a map
// from path to (content, modification time); the clock is a count of seconds;
// the network's answer to one request is a parameter.

module Fetch {
  import opened Strings

  /** cache_max_age = timedelta(days=21), in seconds. */
  const MaxAge: int := 21 * 24 * 60 * 60

  const CacheDir: string := "cache"

  // ---------------------------------------------------------------------------
  // build_path

  /** `\w` of Python 2's re on a byte string: ASCII letters, digits and underscore. */
  predicate IsWordChar(c: char)
  {
    ('a' <= c <= 'z') || ('A' <= c <= 'Z') || ('0' <= c <= '9') || c == '_'
  }

  /** `\s` of Python 2's re on a byte string: space, tab, newline, vertical tab, form feed, carriage return. */
  predicate IsSpaceChar(c: char)
  {
    c == ' ' || ('\t' <= c <= '\r')
  }

  /** The characters the pattern `[^\w\s-]` does not match, which build_path keeps. */
  predicate Kept(c: char)
  {
    IsWordChar(c) || IsSpaceChar(c) || c == '-'
  }

  predicate AllKept(s: string)
  {
    forall k :: 0 <= k < |s| ==> Kept(s[k])
  }

  /** re.sub('[^\w\s-]', '', url): the kept characters of url, in order. */
  function Sanitize(url: string): (r: string)
    ensures |r| <= |url| && AllKept(r)
  {
    if url == [] then []
    else (if Kept(url[0]) then [url[0]] else []) + Sanitize(url[1..])
  }

  /** Sanitizing works character by character, so it splits over concatenation. */
  lemma {:induction false} SanitizeAppend(a: string, b: string)
    ensures Sanitize(a + b) == Sanitize(a) + Sanitize(b)
  {
    if a != [] {
      assert (a + b)[0] == a[0] && (a + b)[1..] == a[1..] + b;
      SanitizeAppend(a[1..], b);
    } else {
      assert a + b == b;
    }
  }

  /** A string of kept characters is left as it is. */
  lemma {:induction false} SanitizeKept(s: string)
    requires AllKept(s)
    ensures Sanitize(s) == s
  {
    if s != [] {
      SanitizeKept(s[1..]);
      assert [s[0]] + s[1..] == s;
    }
  }

  /** Sanitizing is idempotent. */
  lemma SanitizeIdempotent(url: string)
    ensures Sanitize(Sanitize(url)) == Sanitize(url)
  {
    SanitizeKept(Sanitize(url));
  }

  /**
   * build_path: "cache/" followed by the kept characters of the URL, so a
   * file directly under the cache directory, or the directory itself when no
   * character is kept (BuildPathIsDirectory).
   */
  function BuildPath(url: string): (r: string)
    ensures |r| >= 6 && r[..6] == "cache/" && AllKept(r[6..])
  {
    CacheDir + "/" + Sanitize(url)
  }

  /** The file name after "cache/" is the sanitized URL. */
  lemma BuildPathName(url: string)
    ensures |BuildPath(url)| == 6 + |Sanitize(url)|
    ensures BuildPath(url)[..6] == "cache/" && BuildPath(url)[6..] == Sanitize(url)
  {
  }

  /** Nothing is left of a URL exactly when none of its characters is kept. */
  lemma {:induction false} SanitizeEmpty(url: string)
    ensures Sanitize(url) == [] <==> forall k :: 0 <= k < |url| ==> !Kept(url[k])
  {
    if url != [] {
      SanitizeEmpty(url[1..]);
      assert forall k :: 1 <= k < |url| ==> url[1..][k - 1] == url[k];
      if forall k :: 0 <= k < |url| ==> !Kept(url[k]) {
        assert forall k :: 0 <= k < |url[1..]| ==> url[1..][k] == url[k + 1];
      }
    }
  }

  /** The path is the cache directory itself ("" or "://", say) exactly when the URL has no kept character. */
  lemma BuildPathIsDirectory(url: string)
    ensures BuildPath(url) == "cache/" <==> forall k :: 0 <= k < |url| ==> !Kept(url[k])
  {
    SanitizeEmpty(url);
    BuildPathName(url);
  }

  /** A character build_path drops does not change the file: such URLs share one cache entry. */
  lemma BuildPathDrops(a: string, c: char, b: string)
    requires !Kept(c)
    ensures BuildPath(a + [c] + b) == BuildPath(a + b)
  {
    SanitizeAppend(a + [c], b);
    SanitizeAppend(a, [c]);
    SanitizeAppend(a, b);
    assert Sanitize([c]) == [] by {
      assert [c][1..] == [];
    }
  }

  /** URLs made only of kept characters get distinct files. */
  lemma BuildPathDistinct(u: string, v: string)
    requires AllKept(u) && AllKept(v) && u != v
    ensures BuildPath(u) != BuildPath(v)
  {
    SanitizeKept(u);
    SanitizeKept(v);
    BuildPathName(u);
    BuildPathName(v);
  }

  // ---------------------------------------------------------------------------
  // get_from_cache, cache

  /** A cache file: its content and the time it was last written. */
  datatype Entry = Entry(content: string, mtime: int)

  /**
   * get_from_cache against files and a clock: the content of the URL's file
   * when it exists and is younger than the maximum age, nothing otherwise.
   */
  function Lookup(files: map<string, Entry>, now: int, url: string): Option<string>
  {
    var path := BuildPath(url);
    if path in files && now - files[path].mtime < MaxAge then Some(files[path].content) else None
  }

  /** A file written at t is found, with what was written, until 21 days after t. */
  lemma LookupAfterWrite(files: map<string, Entry>, url: string, content: string, t: int, now: int)
    requires t <= now
    ensures Lookup(files[BuildPath(url) := Entry(content, t)], now, url) ==
              if now - t < MaxAge then Some(content) else None
  {
  }

  /** From 21 days on the file is ignored, though it is still there. */
  lemma LookupExpired(files: map<string, Entry>, now: int, url: string)
    requires BuildPath(url) in files && now - files[BuildPath(url)].mtime >= MaxAge
    ensures Lookup(files, now, url) == None
  {
  }

  /** Writing one URL's file leaves what every URL with another file finds. */
  lemma LookupOther(files: map<string, Entry>, now: int, url: string, e: Entry, other: string)
    requires BuildPath(other) != BuildPath(url)
    ensures Lookup(files[BuildPath(url) := e], now, other) == Lookup(files, now, other)
  {
  }

  /** An earlier lookup time sees whatever a later one sees. */
  lemma LookupEarlier(files: map<string, Entry>, t: int, now: int, url: string)
    requires t <= now && Lookup(files, now, url).Some?
    ensures Lookup(files, t, url) == Lookup(files, now, url)
  {
  }

  // ---------------------------------------------------------------------------
  // fetch

  /** What session.get does with one request: a response body, or one of the two exceptions fetch catches. */
  datatype NetOutcome = Ok(content: string) | ConnectionError | TooManyRedirects

  /** The keyword arguments fetch hands on to session.get (data=, post=, processor=), as name/value pairs. */
  type Kwargs = seq<(string, string)>

  /** The cache directory and the clock. */
  class FileCache {
    var files: map<string, Entry>
    /** datetime.now(), in seconds. */
    var now: int

    constructor (start: int)
      ensures files == map[] && now == start
    {
      files := map[];
      now := start;
    }

    /** get_from_cache */
    method GetFromCache(url: string) returns (r: Option<string>)
      ensures r.Some? <==> BuildPath(url) in files && now - files[BuildPath(url)].mtime < MaxAge
      ensures r.Some? ==> r.value == files[BuildPath(url)].content
      ensures r == Lookup(files, now, url)
    {
      var path := BuildPath(url);
      if path in files {
        var age := now - files[path].mtime;
        if age < MaxAge {
          return Some(files[path].content);
        }
      }
      return None;
    }

    /** cache: (over)write the URL's file, stamped with the current time. */
    method Cache(url: string, content: string)
      modifies this
      ensures files == old(files)[BuildPath(url) := Entry(content, now)]
      ensures now == old(now)
      ensures Lookup(files, now, url) == Some(content)
    {
      var path := BuildPath(url);
      files := files[path := Entry(content, now)];
    }

    /**
     * fetch: a non-empty cached copy is returned without a request; an
     * invalid URL gives nothing; otherwise one request is made, a response
     * is cached and returned, and either exception gives nothing (after a
     * one-second sleep on ConnectionError) and writes no file. `isValidUrl`
     * stands for _is_valid_url and `get` for session.get on this URL. The
     * keyword arguments only reach the request: the cache file read and
     * written is that of the URL alone, whatever they are.
     */
    method Fetch(url: string, kwargs: Kwargs, isValidUrl: string -> bool, get: Kwargs -> NetOutcome)
      returns (r: Option<string>, requested: bool)
      modifies this
      ensures var hit := old(Lookup(files, now, url));
              if hit.Some? && hit.value != [] then
                r == hit && !requested && files == old(files) && now == old(now)
              else if !isValidUrl(url) then
                r == None && !requested && files == old(files) && now == old(now)
              else
                requested &&
                match get(kwargs)
                case Ok(content) =>
                  r == Some(content) && files == old(files)[BuildPath(url) := Entry(content, old(now))] && now == old(now)
                case ConnectionError =>
                  r == None && files == old(files) && now == old(now) + 1
                case TooManyRedirects =>
                  r == None && files == old(files) && now == old(now)
    {
      var cached := GetFromCache(url);
      if cached.Some? && cached.value != [] {
        return cached, false;
      }
      if !isValidUrl(url) {
        return None, false;
      }
      requested := true;
      match get(kwargs)
      case Ok(content) =>
        Cache(url, content);
        r := Some(content);
      case ConnectionError =>
        now := now + 1;
        r := None;
      case TooManyRedirects =>
        r := None;
    }
  }
}
