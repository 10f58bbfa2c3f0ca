/**
 * The image service's own decisions: which registry, namespace and
 * repository a blob URL names, which credentials in the auth file apply to
 * it, which global configurations are rejected, and what is written to an
 * image's result file.
 *
 * JSON parsing (rapidjson) and base64 decoding are outside the model: a
 * parsed configuration enters as a value (None when parsing fails), and the
 * decoder as the function `base64Decode`.
 */
module ImageService {
  import opened Wrappers
  import opened Strings

  const HTTP: string := "http://"
  const HTTPS: string := "https://"

  // -------------------------------------------------------- parse_blob_url

  /**
   * The pieces of s from `from` on that are ended by a '/', in order; what
   * follows the last '/' is dropped.
   */
  function WordsFrom(s: string, from: nat): seq<string>
    requires from <= |s|
    decreases |s| - from
  {
    var k := Find(s, '/', from);
    if k == |s| then [] else [s[from..k]] + WordsFrom(s, k + 1)
  }

  function SlashTerminated(s: string): seq<string>
  {
    WordsFrom(s, 0)
  }

  lemma {:induction false} WordsShift(p: string, rest: string, j: nat)
    requires j <= |rest|
    ensures WordsFrom(p + rest, |p| + j) == WordsFrom(rest, j)
    decreases |rest| - j
  {
    var s := p + rest;
    FindShift(p, rest, '/', j);
    var k := Find(rest, '/', j);
    if k < |rest| {
      WordsShift(p, rest, k + 1);
      assert s[|p| + j..|p| + k] == rest[j..k];
    }
  }

  /** a/b */
  function Join(a: string, b: string): string
  {
    a + "/" + b
  }

  lemma SlashTerminatedJoin(w: string, rest: string)
    requires '/' !in w
    ensures SlashTerminated(Join(w, rest)) == [w] + SlashTerminated(rest)
  {
    var s := w + "/" + rest;
    assert s == (w + "/") + rest;
    IndexOfJoin(w, '/', rest);
    assert s[0..|w|] == w;
    WordsShift(w + "/", rest, 0);
  }

  lemma SlashTerminatedNone(s: string)
    requires '/' !in s
    ensures SlashTerminated(s) == []
  {
  }

  /**
   * What parse_blob_url returns and leaves in ref.seg: for an http:// or
   * https:// URL, -1 unless exactly five '/'-terminated segments follow the
   * scheme, else 0 with segments 0, 2 and 3; any other URL gives 0 and no
   * segments.
   */
  function BlobUrlRef(url: string): (r: (int, seq<string>))
    ensures r.0 == 0 || r.0 == -1
    ensures r.0 == -1 ==> r.1 == [] && (StartsWith(url, HTTP) || StartsWith(url, HTTPS))
    ensures r.1 == [] || |r.1| == 3
    ensures !StartsWith(url, HTTP) && !StartsWith(url, HTTPS) ==> r == (0, [])
  {
    var scheme := if StartsWith(url, HTTP) then HTTP else HTTPS;
    if !StartsWith(url, scheme) then (0, [])
    else
      var words := SlashTerminated(url[|scheme|..]);
      if |words| != 5 then (-1, []) else (0, [words[0], words[2], words[3]])
  }

  /** scheme + registry/v2/namespace/repo/blobs/digest, the blob URL of a registry. */
  function BlobUrl(scheme: string, registry: string, ns: string, repo: string, digest: string): string
  {
    scheme + Join(registry, Join("v2", Join(ns, Join(repo, Join("blobs", digest)))))
  }

  lemma SchemeOfUrl(scheme: string, tail: string)
    requires scheme == HTTP || scheme == HTTPS
    ensures var url := scheme + tail;
      (StartsWith(url, HTTP) <==> scheme == HTTP) && StartsWith(url, scheme) && url[|scheme|..] == tail
  {
    var url := scheme + tail;
    assert url[..|scheme|] == scheme && url[|scheme|..] == tail;
    if scheme == HTTPS {
      assert url[4] == 's';
    } else {
      assert url[..|HTTP|] == HTTP;
    }
  }

  /** A registry blob URL yields [registry, namespace, repo]. */
  lemma BlobUrlOfParts(scheme: string, registry: string, ns: string, repo: string, digest: string)
    requires scheme == HTTP || scheme == HTTPS
    requires '/' !in registry && '/' !in ns && '/' !in repo && '/' !in digest
    ensures BlobUrlRef(BlobUrl(scheme, registry, ns, repo, digest)) == (0, [registry, ns, repo])
  {
    var t0 := Join(registry, Join("v2", Join(ns, Join(repo, Join("blobs", digest)))));
    RegistryPathWords(registry, ns, repo, digest);
    SchemeOfUrl(scheme, t0);
  }

  /** The path after the scheme has five '/'-terminated words: registry, v2, namespace, repo, blobs. */
  lemma RegistryPathWords(registry: string, ns: string, repo: string, digest: string)
    requires '/' !in registry && '/' !in ns && '/' !in repo && '/' !in digest
    ensures var w := SlashTerminated(Join(registry, Join("v2", Join(ns, Join(repo, Join("blobs", digest))))));
      |w| == 5 && w[0] == registry && w[2] == ns && w[3] == repo
  {
    var t4 := Join("blobs", digest);
    var t3 := Join(repo, t4);
    var t2 := Join(ns, t3);
    var t1 := Join("v2", t2);
    var t0 := Join(registry, t1);
    SlashTerminatedNone(digest);
    SlashTerminatedJoin("blobs", digest);
    SlashTerminatedJoin(repo, t4);
    SlashTerminatedJoin(ns, t3);
    SlashTerminatedJoin("v2", t2);
    SlashTerminatedJoin(registry, t1);
    var w3 := SlashTerminated(t3);
    assert w3 == [repo, "blobs"];
    var w2 := SlashTerminated(t2);
    var w1 := SlashTerminated(t1);
    var w0 := SlashTerminated(t0);
    assert w0[2] == w1[1] == w2[0] == ns;
    assert w0[3] == w1[2] == w2[1] == w3[0] == repo;
  }

  /** The find loop of parse_blob_url: each '/' ends a word. */
  method SplitWords(s: string) returns (words: seq<string>)
    ensures words == SlashTerminated(s)
  {
    words := [];
    var prev := 0;
    var idx := Find(s, '/', prev);
    while idx < |s|
      invariant prev <= idx <= |s| && idx == Find(s, '/', prev)
      invariant words + WordsFrom(s, prev) == WordsFrom(s, 0)
      decreases |s| - prev
    {
      var word := s[prev..idx];
      assert words + ([word] + WordsFrom(s, idx + 1)) == (words + [word]) + WordsFrom(s, idx + 1);
      words := words + [word];
      prev := idx + 1;
      idx := Find(s, '/', prev);
    }
  }

  /** parse_blob_url, trying the http:// and then the https:// prefix. */
  method ParseBlobUrl(url: string) returns (r: int, seg: seq<string>)
    ensures (r, seg) == BlobUrlRef(url)
  {
    seg := [];
    if StartsWith(url, HTTP) {
      var words := SplitWords(url[|HTTP|..]);
      if |words| != 5 {
        return -1, [];
      }
      seg := [words[0], words[2], words[3]];
    }
    if StartsWith(url, HTTPS) {
      assert url[..|HTTP|][4] == 's';
      var words := SplitWords(url[|HTTPS|..]);
      if |words| != 5 {
        return -1, [];
      }
      seg := [words[0], words[2], words[3]];
    }
    return 0, seg;
  }

  // --------------------------------------------------- load_cred_from_file

  /** One entry of the auth file's "auths" object. */
  datatype AuthEntry = AuthEntry(addr: string, auth: Option<string>, username: Option<string>, password: Option<string>)

  /**
   * The keys tried against an entry: each segment appended to the previous
   * key, with a '/' between them once the key is non-empty.
   */
  function Prefixes(prefix: string, segs: seq<string>): (ps: seq<string>)
    ensures |ps| == |segs|
    decreases |segs|
  {
    if segs == [] then []
    else
      var p := Extend(prefix, segs[0]);
      [p] + Prefixes(p, segs[1..])
  }

  /** One step of the prefix loop: a '/' unless the key is still empty, then the segment. */
  function Extend(prefix: string, seg: string): string
  {
    (if prefix != [] then prefix + "/" else prefix) + seg
  }

  /** Each key extends the one before it (the first extends the starting prefix). */
  lemma {:induction false} PrefixesStep(prefix: string, segs: seq<string>, j: nat)
    requires j < |segs|
    ensures Prefixes(prefix, segs)[j] == Extend(if j == 0 then prefix else Prefixes(prefix, segs)[j - 1], segs[j])
    decreases j
  {
    if j > 0 {
      var p := Extend(prefix, segs[0]);
      PrefixesStep(p, segs[1..], j - 1);
    }
  }

  /** For non-empty segments the keys are registry, registry/namespace and registry/namespace/repo. */
  lemma PrefixesOfRef(cr: string, ns: string, repo: string)
    requires cr != []
    ensures Prefixes([], [cr, ns, repo]) == [cr, cr + "/" + ns, cr + "/" + ns + "/" + repo]
  {
    var segs := [cr, ns, repo];
    var ps := Prefixes([], segs);
    PrefixesStep([], segs, 0);
    assert ps[0] == cr;
    PrefixesStep([], segs, 1);
    assert ps[1] == cr + "/" + ns;
    PrefixesStep([], segs, 2);
    assert |ps[1]| > 0;
    assert ps[2] == cr + "/" + ns + "/" + repo;
  }

  /** "user:pass" split at its first ':'; None when there is no ':'. */
  function SplitToken(token: string): (r: Option<(string, string)>)
    ensures r.None? <==> ':' !in token
    ensures r.Some? ==> ':' !in r.value.0 && token == r.value.0 + ":" + r.value.1
  {
    var p := IndexOf(token, ':');
    if p == |token| then None
    else
      assert token == token[..p] + ":" + token[p + 1..];
      Some((token[..p], token[p + 1..]))
  }

  /** Splitting a joined token gives back the user and the password, whatever the password holds. */
  lemma SplitTokenJoin(user: string, pass: string)
    requires ':' !in user
    ensures SplitToken(user + ":" + pass) == Some((user, pass))
  {
    IndexOfJoin(user, ':', pass);
    var t := user + ":" + pass;
    assert t[..|user|] == user && t[|user| + 1..] == pass;
  }

  /** The credentials a matching entry supplies: its "auth" token when present, else username and password. */
  function EntryCredentials(e: AuthEntry, base64Decode: string -> string): (r: Option<(string, string)>)
    ensures e.auth.Some? ==> r == SplitToken(base64Decode(e.auth.value))
    ensures e.auth.None? ==> (r.Some? <==> e.username.Some? && e.password.Some?)
    ensures e.auth.None? && r.Some? ==> r.value == (e.username.value, e.password.value)
  {
    if e.auth.Some? then SplitToken(base64Decode(e.auth.value))
    else if e.username.Some? && e.password.Some? then Some((e.username.value, e.password.value))
    else None
  }

  /** The credentials of the first entry that matches one of the keys and supplies some. */
  function FirstCredentials(entries: seq<AuthEntry>, keys: seq<string>, base64Decode: string -> string): (r: Option<(string, string)>)
    ensures r.Some? <==> exists i :: 0 <= i < |entries| && entries[i].addr in keys && EntryCredentials(entries[i], base64Decode).Some?
    decreases |entries|
  {
    if entries == [] then None
    else if entries[0].addr in keys && EntryCredentials(entries[0], base64Decode).Some? then
      EntryCredentials(entries[0], base64Decode)
    else
      var r := FirstCredentials(entries[1..], keys, base64Decode);
      assert forall i :: 0 < i < |entries| ==> entries[i] == entries[1..][i - 1];
      r
  }

  /** What load_cred_from_file decides: -1 with no credentials, or 0 with the user and password. */
  function CredentialsFor(config: Option<seq<AuthEntry>>, remotePath: string, base64Decode: string -> string)
    : Option<(string, string)>
  {
    var (r, seg) := BlobUrlRef(remotePath);
    if config.None? || r != 0 then None
    else FirstCredentials(config.value, Prefixes([], seg), base64Decode)
  }

  /**
   * load_cred_from_file: `config` is the parsed auth file's entries in
   * order, None when it does not parse.
   */
  method LoadCredentials(config: Option<seq<AuthEntry>>, remotePath: string, base64Decode: string -> string)
    returns (r: int, username: string, password: string)
    ensures r == 0 || r == -1
    ensures var c := CredentialsFor(config, remotePath, base64Decode);
      (r == 0 <==> c.Some?) && (c.Some? ==> (username, password) == c.value)
    ensures r == -1 ==> username == [] && password == []
  {
    username, password := [], [];
    if config.None? {
      return -1, username, password;
    }
    var pr, seg := ParseBlobUrl(remotePath);
    if pr != 0 {
      return -1, username, password;
    }
    var keys := Prefixes([], seg);
    var entries := config.value;
    var i := 0;
    while i < |entries|
      invariant 0 <= i <= |entries|
      invariant FirstCredentials(entries, keys, base64Decode) == FirstCredentials(entries[i..], keys, base64Decode)
    {
      assert entries[i..][1..] == entries[i + 1..];
      var e := entries[i];
      var matched := MatchesKey(e.addr, seg);
      if matched {
        var c := EntryCredentials(e, base64Decode);
        if c.Some? {
          return 0, c.value.0, c.value.1;
        }
      }
      i := i + 1;
    }
    return -1, username, password;
  }

  /** The prefix-building loop: does `addr` equal one of the cumulative keys? */
  method MatchesKey(addr: string, seg: seq<string>) returns (matched: bool)
    ensures matched <==> addr in Prefixes([], seg)
  {
    var prefix := [];
    var j := 0;
    matched := false;
    while j < |seg|
      invariant 0 <= j <= |seg|
      invariant prefix == if j == 0 then [] else Prefixes([], seg)[j - 1]
      invariant forall i :: 0 <= i < j ==> Prefixes([], seg)[i] != addr
    {
      PrefixesStep([], seg, j);
      if prefix != [] {
        prefix := prefix + "/";
      }
      prefix := prefix + seg[j];
      if addr == prefix {
        return true;
      }
      j := j + 1;
    }
  }

  /** reload_auth: the credentials, or two empty strings when none apply. */
  method ReloadAuth(config: Option<seq<AuthEntry>>, remotePath: string, base64Decode: string -> string)
    returns (username: string, password: string)
    ensures (username, password) == match CredentialsFor(config, remotePath, base64Decode)
      case Some(c) => c
      case None => ([], [])
  {
    var r;
    r, username, password := LoadCredentials(config, remotePath, base64Decode);
  }

  // ----------------------------------------------------- configuration checks

  /**
   * read_global_config_and_set: -1 when the global configuration does not
   * parse, names an io engine above 2, or names a log file that cannot be
   * opened; 0 otherwise. Audit settings only log.
   */
  function GlobalConfigResult(parsed: bool, ioEngine: nat, logPath: string, logOpened: bool): (r: int)
    ensures r == 0 <==> parsed && ioEngine <= 2 && (logPath == [] || logOpened)
    ensures r == 0 || r == -1
  {
    if !parsed then -1
    else if ioEngine > 2 then -1
    else if logPath != [] && !logOpened then -1
    else 0
  }

  /** An image's "download" section: its own when present, else the default config's. */
  function DownloadSection<D>(image: Option<D>, defaults: Option<D>): (d: Option<D>)
    ensures image.Some? ==> d == image
    ensures image.None? ==> d == defaults
  {
    if image.None? && defaults.Some? then defaults else image
  }

  /** The result-file text: "success" for a positive status, else "failed:" and the exception. */
  function ResultText(status: int, exception: string): (t: string)
    ensures status > 0 ==> t == "success"
    ensures status <= 0 ==> |t| >= 7 && t[..7] == "failed:" && t[7..] == exception
  {
    if status <= 0 then "failed:" + exception else "success"
  }

  /** What create_image_file ends with: the image file, or none, and what goes into the result file. */
  datatype CreateOutcome = CreateOutcome(created: bool, resultWrite: Option<string>)

  /**
   * create_image_file once the image configuration has parsed (it returns
   * null before writing anything otherwise): the image file's status
   * decides success, and the result text is written unless no result file
   * is configured.
   */
  function CreateImageFile(parsed: bool, resultFile: string, status: int, exception: string): (o: CreateOutcome)
    ensures o.created <==> parsed && status > 0
    ensures !parsed || resultFile == [] ==> o.resultWrite.None?
    ensures parsed && resultFile != [] ==> o.resultWrite == Some(ResultText(status, exception))
  {
    if !parsed then CreateOutcome(false, None)
    else CreateOutcome(status > 0, if resultFile == [] then None else Some(ResultText(status, exception)))
  }
}
