/**
 * The layer-opening logic of image_file.cpp (ImageFile): how each layer of
 * an image is opened (a local file, a downloaded blob or a remote blob),
 * how the open is spread over worker coroutines, and how the first failure
 * is recorded. The files themselves (local files, the registry file system,
 * LSMT) are outcomes passed in as parameters.
 */
module ImageFile {
  import opened Wrappers
  import opened Strings

  /** IOEngineType::io_engine_libaio; psync is 0. */
  const LIBAIO: int := 1
  /** O_RDONLY and O_DIRECT as Linux defines them. */
  const O_RDONLY: bv32 := 0
  const O_DIRECT: bv32 := 0x4000
  const EPERM: int := 1
  const AUTH_FAILED: string := "Authentication failed"
  /** PARALLEL_LOAD_INDEX: at most this many coroutines open the lower layers. */
  const PARALLEL_LOAD: nat := 32
  /** The window of the random download delay when delayExtra is 0. */
  const DEFAULT_EXTRA: nat := 30

  // ---------------------------------------------------------------- boot status

  /** m_status and m_exception. */
  datatype Boot = Boot(status: int, exception: string)

  /**
   * set_failed(reason): only while booting (status 0) does a failure
   * register; the status becomes -1 and the reason is kept.
   */
  function Failed(b: Boot, reason: string): (r: Boot)
    ensures r.status != 0
    ensures b.status == 0 ==> r.exception == reason
    ensures b.status != 0 ==> r == b
  {
    if b.status == 0 then Boot(-1, reason) else b
  }

  /** The first failure wins: a later one changes nothing. */
  lemma FirstFailureWins(b: Boot, first: string, later: string)
    ensures Failed(Failed(b, first), later) == Failed(b, first)
  {
  }

  // ---------------------------------------------------------------- remote URL

  /** url[url.length() - 1] != '/'. */
  predicate EndsWithSlash(s: string)
  {
    |s| > 0 && s[|s| - 1] == '/'
  }

  /** repoBlobUrl, a '/' unless it already ends with one, then the digest. */
  function RemoteUrl(base: string, digest: string): (url: string)
    requires base != []
    ensures |url| == |base| + (if EndsWithSlash(base) then 0 else 1) + |digest|
    ensures url[..|base|] == base && url[|url| - |digest|..] == digest
    ensures url[|url| - |digest| - 1] == '/'
  {
    (if EndsWithSlash(base) then base else base + "/") + digest
  }

  /** A trailing slash in the configured URL makes no difference. */
  lemma RemoteUrlSlash(base: string, digest: string)
    requires base != [] && !EndsWithSlash(base)
    ensures RemoteUrl(base + "/", digest) == RemoteUrl(base, digest)
  {
    assert EndsWithSlash(base + "/");
  }

  // ---------------------------------------------------------------- local open flags

  /** An ioengine above 2 is replaced by psync. */
  function EffectiveEngine(ioengine: int): (e: int)
    ensures e <= 2
    ensures ioengine <= 2 ==> e == ioengine
  {
    if ioengine > 2 then 0 else ioengine
  }

  /** O_RDONLY, with O_DIRECT added for libaio only. */
  function OpenFlags(engine: int): (flags: bv32)
    ensures (flags & O_DIRECT != 0) <==> engine == LIBAIO
    ensures flags & !O_DIRECT == O_RDONLY
  {
    if engine == LIBAIO then O_RDONLY | O_DIRECT else O_RDONLY
  }

  /** The adaptors a local layer file is opened through, innermost first. */
  datatype Adaptor = LocalFile(flags: bv32, engine: int) | AlignedFile | SwitchFile | ZFile

  /**
   * The outcomes of the calls __open_ro_file makes: the local open, the
   * 4K-aligned adaptor, the switch file, is_zfile and zfile_open_ro.
   */
  datatype LocalOutcome = LocalOutcome(fileOpened: bool, aligned: bool, switched: bool, isZfile: bool, zfileOpened: bool)

  /**
   * The reason __open_ro_file records: that of the first step that failed,
   * the aligned adaptor being tried for libaio only.
   */
  function LocalFailure(path: string, engine: int, o: LocalOutcome): string
  {
    if !o.fileOpened then "failed to open local file " + path
    else if engine == LIBAIO && !o.aligned then "failed to open aligned_file_adaptor " + path
    else if !o.switched then "failed to open switch file `" + path
    else "failed to open zfile " + path
  }

  /** What a layer is opened from. */
  datatype Source = LocalPath(path: string) | RemoteBlob(dir: string, digest: string)

  /** A layer as the image config lists it. */
  datatype Layer = Layer(file: string, dir: string, digest: string)

  /**
   * open_lower_layer's choice: the layer's own file when it names one; else
   * the committed download in its directory when the blob was downloaded;
   * else the remote blob.
   */
  function LayerSource(layer: Layer, downloaded: bool, commitFileName: string): (s: Source)
    ensures s.LocalPath? <==> layer.file != [] || downloaded
    ensures layer.file != [] ==> s == LocalPath(layer.file)
    ensures layer.file == [] && downloaded ==> s.path == layer.dir + "/" + commitFileName
    ensures s.RemoteBlob? ==> s.dir == layer.dir && s.digest == layer.digest
  {
    if layer.file != [] then LocalPath(layer.file)
    else if downloaded then LocalPath(layer.dir + "/" + commitFileName)
    else RemoteBlob(layer.dir, layer.digest)
  }

  /** An opened layer: a local adaptor stack or a remote blob at a URL. */
  datatype LayerFile = Local(adaptors: seq<Adaptor>) | Remote(url: string)

  /**
   * The outcomes of the calls __open_ro_remote makes: the remote open (and
   * errno when it failed), then the switch file and the sure file around it.
   */
  datatype RemoteOutcome = RemoteOpened(switched: bool, sure: bool) | RemoteError(errno: int)

  /** Every step of __open_ro_file succeeds. */
  predicate LocalOpens(engine: int, o: LocalOutcome)
  {
    o.fileOpened && (engine != LIBAIO || o.aligned) && o.switched && (!o.isZfile || o.zfileOpened)
  }

  /**
   * One lower layer as open_lowers meets it: its config, whether its blob
   * was already downloaded, the outcomes of the opens it leads to, and
   * errno after open_lower_layer failed on it.
   */
  datatype LayerInput = LayerInput(layer: Layer, downloaded: bool, local: LocalOutcome, remote: RemoteOutcome, errno: int)

  /**
   * What opening one layer amounts to: whether it opened, the reason passed
   * to set_failed when it did not, and what it appended to dl_list.
   */
  datatype Opening = Opening(ok: bool, reason: string, queued: seq<string>)

  /** min(PARALLEL_LOAD_INDEX, number of layers): the open coroutines started. */
  function Workers(n: nat): (w: nat)
    requires n > 0
    ensures 1 <= w <= n && w <= PARALLEL_LOAD
    ensures n <= PARALLEL_LOAD ==> w == n
  {
    if n < PARALLEL_LOAD then n else PARALLEL_LOAD
  }

  /** errno after a failed open, layer by layer. */
  function Errnos(ins: seq<LayerInput>): (es: seq<int>)
    ensures |es| == |ins| && forall j :: 0 <= j < |ins| ==> es[j] == ins[j].errno
  {
    seq(|ins|, j requires 0 <= j < |ins| => ins[j].errno)
  }

  // ---------------------------------------------------------------- opening a list of layers

  /** The boot status after opening layers 0 .. k-1 in order, starting from b. */
  function BootAfter(b: Boot, os: seq<Opening>, k: nat): Boot
    requires k <= |os|
  {
    if k == 0 then b
    else
      var prev := BootAfter(b, os, k - 1);
      if os[k - 1].ok then prev else Failed(prev, os[k - 1].reason)
  }

  /** What opening layers 0 .. k-1 in order appends to dl_list. */
  function QueuedBy(os: seq<Opening>, k: nat): seq<string>
    requires k <= |os|
  {
    if k == 0 then [] else QueuedBy(os, k - 1) + os[k - 1].queued
  }

  /** The first layer at or after j that fails to open, or |os| when none does. */
  function FailFrom(os: seq<Opening>, j: nat): (f: nat)
    requires j <= |os|
    ensures j <= f <= |os|
    ensures forall x :: j <= x < f ==> os[x].ok
    ensures f < |os| ==> !os[f].ok
    decreases |os| - j
  {
    if j == |os| then j
    else if !os[j].ok then j
    else FailFrom(os, j + 1)
  }

  /**
   * Where the opening stops when w workers, run one after another, are
   * left to open layers from j on: a worker goes on while its layers
   * open; a failure with a non-zero errno stops every worker, one with
   * errno 0 stops only the worker that met it.
   */
  function AttemptEnd(os: seq<Opening>, errnos: seq<int>, j: nat, w: nat): (e: nat)
    requires j <= |os| == |errnos| && w >= 1
    ensures j <= e <= |os|
    ensures j < |os| ==> j < e
    decreases |os| - j
  {
    if j == |os| then j
    else if os[j].ok then AttemptEnd(os, errnos, j + 1, w)
    else if errnos[j] != 0 || w == 1 then j + 1
    else AttemptEnd(os, errnos, j + 1, w - 1)
  }

  /** Where the opening stops from layer a, with recorded errno eno and wl workers yet to run. */
  function Continue(os: seq<Opening>, errnos: seq<int>, a: nat, eno: int, wl: nat): nat
    requires a <= |os| == |errnos|
  {
    if eno != 0 || wl == 0 then a else AttemptEnd(os, errnos, a, wl)
  }

  /** However the workers stop, the first failing layer is among those tried, and without one all are. */
  lemma {:induction false} AttemptPastFailure(os: seq<Opening>, errnos: seq<int>, j: nat, w: nat)
    requires j <= |os| == |errnos| && w >= 1
    ensures FailFrom(os, j) < |os| ==> FailFrom(os, j) < AttemptEnd(os, errnos, j, w)
    ensures FailFrom(os, j) == |os| ==> AttemptEnd(os, errnos, j, w) == |os|
    decreases |os| - j
  {
    if j < |os| && os[j].ok {
      AttemptPastFailure(os, errnos, j + 1, w);
    }
  }

  /** Layers that all open leave the boot status alone. */
  lemma {:induction false} BootBeforeFailure(b: Boot, os: seq<Opening>, k: nat)
    requires k <= FailFrom(os, 0)
    ensures BootAfter(b, os, k) == b
  {
    if k > 0 {
      BootBeforeFailure(b, os, k - 1);
    }
  }

  /** Once booting has failed, opening more layers changes nothing. */
  lemma {:induction false} BootLatched(b: Boot, os: seq<Opening>, k: nat)
    requires b.status != 0 && k <= |os|
    ensures BootAfter(b, os, k) == b
  {
    if k > 0 {
      BootLatched(b, os, k - 1);
    }
  }

  /**
   * While booting, once the first failing layer has been tried the image
   * has failed with that layer's reason, whatever the later layers do.
   */
  lemma {:induction false} BootAfterFailure(b: Boot, os: seq<Opening>, k: nat)
    requires b.status == 0 && FailFrom(os, 0) < k <= |os|
    ensures BootAfter(b, os, k) == Boot(-1, os[FailFrom(os, 0)].reason)
  {
    var f := FailFrom(os, 0);
    if k == f + 1 {
      BootBeforeFailure(b, os, f);
    } else {
      BootAfterFailure(b, os, k - 1);
    }
  }

  /** What a tried layer queued is part of what the tried layers queued. */
  lemma {:induction false} QueuedIncludes(os: seq<Opening>, k: nat, j: nat)
    requires j < k <= |os|
    ensures |os[j].queued| <= |QueuedBy(os, k)|
  {
    if j < k - 1 {
      QueuedIncludes(os, k - 1, j);
    }
  }

  // ---------------------------------------------------------------- download delay

  /** rand() % extra_range + delay, with an extra_range of 0 replaced by 30. */
  function DownloadDelay(delay: nat, delayExtra: nat, rand: nat): (d: nat)
    ensures delay <= d < delay + (if delayExtra == 0 then DEFAULT_EXTRA else delayExtra)
  {
    var extra := if delayExtra == 0 then DEFAULT_EXTRA else delayExtra;
    rand % extra + delay
  }

  // ---------------------------------------------------------------- the image file

  class ImageFile {
    var status: int
    var exception: string
    /** dl_list: the directories of the remote layers queued for background download. */
    var downloads: seq<string>
    const repoBlobUrl: string
    const ioEngine: int
    /** conf.download().enable() */
    const downloadEnabled: bool
    const delay: nat
    const delayExtra: nat

    constructor(repoBlobUrl: string, ioEngine: int, downloadEnabled: bool, delay: nat, delayExtra: nat)
      ensures status == 0 && exception == [] && downloads == []
      ensures this.repoBlobUrl == repoBlobUrl && this.ioEngine == ioEngine
      ensures this.downloadEnabled == downloadEnabled && this.delay == delay && this.delayExtra == delayExtra
    {
      status := 0;
      exception := [];
      downloads := [];
      this.repoBlobUrl := repoBlobUrl;
      this.ioEngine := ioEngine;
      this.downloadEnabled := downloadEnabled;
      this.delay := delay;
      this.delayExtra := delayExtra;
    }

    function State(): Boot
      reads this
    {
      Boot(status, exception)
    }

    method SetFailed(reason: string)
      modifies this
      ensures State() == Failed(old(State()), reason)
      ensures downloads == old(downloads)
    {
      if status == 0 {
        status := -1;
        exception := reason;
      }
    }

    /** set_auth_failed(): set_failed with the fixed reason. */
    method SetAuthFailed()
      modifies this
      ensures State() == Failed(old(State()), AUTH_FAILED)
      ensures downloads == old(downloads)
    {
      if status == 0 {
        status := -1;
        exception := AUTH_FAILED;
      }
    }

    /**
     * __open_ro_file: the local file opened with the engine's flags, the
     * aligned adaptor for libaio, the switch file, and the zfile reader when
     * the content is a zfile; the first step that fails is recorded.
     */
    method OpenRoFile(path: string, o: LocalOutcome) returns (file: Option<seq<Adaptor>>)
      modifies this
      ensures file.Some? <==> LocalOpens(EffectiveEngine(ioEngine), o)
      ensures var e := EffectiveEngine(ioEngine);
        file.Some? ==> (file.value ==
          [LocalFile(OpenFlags(e), e)] + (if e == LIBAIO then [AlignedFile] else []) + [SwitchFile] + (if o.isZfile then [ZFile] else []))
      ensures file.Some? ==> State() == old(State())
      ensures file.None? ==> State() == Failed(old(State()), LocalFailure(path, EffectiveEngine(ioEngine), o))
      ensures downloads == old(downloads)
    {
      var flags := O_RDONLY;
      var ioengine := ioEngine;
      if ioengine > 2 {
        ioengine := 0;
      }
      if ioengine == LIBAIO {
        flags := flags | O_DIRECT;
      }
      if !o.fileOpened {
        SetFailed("failed to open local file " + path);
        return None;
      }
      var adaptors := [LocalFile(flags, ioengine)];
      if flags & O_DIRECT != 0 {
        if !o.aligned {
          SetFailed("failed to open aligned_file_adaptor " + path);
          return None;
        }
        adaptors := adaptors + [AlignedFile];
      }
      if !o.switched {
        SetFailed("failed to open switch file `" + path);
        return None;
      }
      adaptors := adaptors + [SwitchFile];
      if o.isZfile {
        if !o.zfileOpened {
          SetFailed("failed to open zfile " + path);
          return None;
        }
        adaptors := adaptors + [ZFile];
      }
      return Some(adaptors);
    }

    /**
     * __open_ro_remote: an empty repoBlobUrl fails; otherwise the blob URL is
     * opened (an EPERM failure recorded as an authentication failure) and
     * wrapped in a switch file and a sure file, and the opened layer is
     * queued for download when downloading is on.
     */
    method OpenRoRemote(dir: string, digest: string, o: RemoteOutcome) returns (url: Option<string>)
      modifies this
      ensures repoBlobUrl == [] ==> url.None? && State() == Failed(old(State()), "empty repoBlobUrl")
      ensures repoBlobUrl != [] && o.RemoteError? ==> (url.None? &&
        State() == Failed(old(State()), if o.errno == EPERM then AUTH_FAILED else "failed to open remote file " + RemoteUrl(repoBlobUrl, digest)))
      ensures repoBlobUrl != [] && o.RemoteOpened? && !o.switched ==>
        url.None? && State() == Failed(old(State()), "failed to open switch file `" + RemoteUrl(repoBlobUrl, digest))
      ensures repoBlobUrl != [] && o.RemoteOpened? && o.switched && !o.sure ==>
        url.None? && State() == Failed(old(State()), "failed to open sure file `" + RemoteUrl(repoBlobUrl, digest))
      ensures repoBlobUrl != [] && o.RemoteOpened? && o.switched && o.sure ==>
        url == Some(RemoteUrl(repoBlobUrl, digest)) && State() == old(State())
      ensures downloads == old(downloads) + (if url.Some? && downloadEnabled then [dir] else [])
    {
      if repoBlobUrl == [] {
        SetFailed("empty repoBlobUrl");
        return None;
      }
      var u := repoBlobUrl;
      if u[|u| - 1] != '/' {
        u := u + "/";
      }
      u := u + digest;
      if o.RemoteError? {
        if o.errno == EPERM {
          SetAuthFailed();
        } else {
          SetFailed("failed to open remote file " + u);
        }
        return None;
      }
      if !o.switched {
        SetFailed("failed to open switch file `" + u);
        return None;
      }
      if !o.sure {
        SetFailed("failed to open sure file `" + u);
        return None;
      }
      if downloadEnabled {
        downloads := downloads + [dir];
      }
      return Some(u);
    }

    /**
     * What open_lower_layer does to one layer under this image's
     * configuration: a failure carries a reason and queues nothing, and
     * only an opened remote blob is queued, when downloading is on.
     */
    function LayerOpening(layer: Layer, downloaded: bool, commitFileName: string, local: LocalOutcome, remote: RemoteOutcome): (o: Opening)
      ensures !o.ok ==> o.reason != [] && o.queued == []
      ensures o.queued != [] ==> o.ok && downloadEnabled
      ensures o.ok && downloadEnabled && LayerSource(layer, downloaded, commitFileName).RemoteBlob? ==> o.queued == [layer.dir]
    {
      match LayerSource(layer, downloaded, commitFileName)
      case LocalPath(path) =>
        var e := EffectiveEngine(ioEngine);
        if LocalOpens(e, local) then Opening(true, [], []) else Opening(false, LocalFailure(path, e, local), [])
      case RemoteBlob(dir, digest) =>
        if repoBlobUrl == [] then Opening(false, "empty repoBlobUrl", [])
        else
          var url := RemoteUrl(repoBlobUrl, digest);
          match remote
          case RemoteError(errno) =>
            Opening(false, if errno == EPERM then AUTH_FAILED else "failed to open remote file " + url, [])
          case RemoteOpened(switched, sure) =>
            if !switched then Opening(false, "failed to open switch file `" + url, [])
            else if !sure then Opening(false, "failed to open sure file `" + url, [])
            else Opening(true, [], if downloadEnabled then [dir] else [])
    }

    /** open_lower_layer: 0 when the layer opened from its source, -1 otherwise. */
    method OpenLowerLayer(layer: Layer, downloaded: bool, commitFileName: string, local: LocalOutcome, remote: RemoteOutcome)
      returns (r: int, file: Option<LayerFile>)
      modifies this
      ensures r == 0 <==> file.Some?
      ensures r == 0 || r == -1
      ensures match LayerSource(layer, downloaded, commitFileName)
        case LocalPath(_) => file.Some? ==> file.value.Local?
        case RemoteBlob(_, digest) => file.Some? ==> repoBlobUrl != [] && file.value == Remote(RemoteUrl(repoBlobUrl, digest))
      ensures var o := LayerOpening(layer, downloaded, commitFileName, local, remote);
        (file.Some? <==> o.ok) &&
        State() == (if o.ok then old(State()) else Failed(old(State()), o.reason)) &&
        downloads == old(downloads) + o.queued
    {
      var result: Option<LayerFile>;
      if layer.file != [] {
        var f := OpenRoFile(layer.file, local);
        result := if f.Some? then Some(Local(f.value)) else None;
      } else if downloaded {
        var f := OpenRoFile(layer.dir + "/" + commitFileName, local);
        result := if f.Some? then Some(Local(f.value)) else None;
      } else {
        var u := OpenRoRemote(layer.dir, layer.digest, remote);
        result := if u.Some? then Some(Remote(u.value)) else None;
      }
      if result.Some? {
        return 0, result;
      }
      return -1, None;
    }

    /** LayerOpening on one entry of the layer list. */
    function OpeningOf(input: LayerInput, commitFileName: string): Opening
    {
      LayerOpening(input.layer, input.downloaded, commitFileName, input.local, input.remote)
    }

    /** The opening of every layer of the list, in order. */
    function Openings(ins: seq<LayerInput>, commitFileName: string): (os: seq<Opening>)
      ensures |os| == |ins|
      ensures forall j {:trigger OpeningOf(ins[j], commitFileName)} :: 0 <= j < |ins| ==> os[j] == OpeningOf(ins[j], commitFileName)
    {
      seq(|ins|, j requires 0 <= j < |ins| => OpeningOf(ins[j], commitFileName))
    }

    /**
     * The open coroutines of open_lowers, started and joined: up to
     * PARALLEL_LOAD_INDEX workers share one job counter. The layers tried
     * are those before where the opening stops; exactly those of them that
     * opened are open, and the boot status and dl_list are what opening
     * them in order makes of the old ones.
     */
    method OpenInParallel(ins: seq<LayerInput>, commitFileName: string) returns (files: seq<bool>, ghost attempted: nat)
      requires |ins| > 0
      modifies this
      ensures var os := Openings(ins, commitFileName);
        attempted == AttemptEnd(os, Errnos(ins), 0, Workers(|ins|)) &&
        |files| == |ins| && (forall j :: 0 <= j < |ins| ==> (files[j] <==> j < attempted && os[j].ok)) &&
        State() == BootAfter(old(State()), os, attempted) &&
        downloads == old(downloads) + QueuedBy(os, attempted)
    {
      var n := |ins|;
      var task := new ParallelOpenTask(this, ins, commitFileName);
      ghost var os := task.os;
      ghost var errnos := task.errnos;
      var workers := if n < PARALLEL_LOAD then n else PARALLEL_LOAD;
      var w := 0;
      while w < workers
        invariant 0 <= w <= workers && workers == Workers(n)
        invariant task.Describes() && task.Valid() && task.img == this && task.ins == ins && task.os == os && task.errnos == errnos
        invariant task.boot0 == old(State()) && task.downloads0 == old(downloads)
        invariant Continue(os, errnos, task.attempted, task.eno, workers - w) == AttemptEnd(os, errnos, 0, workers)
      {
        task.Work(workers - w);
        w := w + 1;
      }
      assert os == Openings(ins, commitFileName) && errnos == Errnos(ins);
      return task.files, task.attempted;
    }

    /**
     * open_lowers: no layers gives no file and no error. Otherwise the
     * workers open the layers, each failure going through set_failed and
     * each opened remote blob onto dl_list; the first layer left unopened
     * is named in m_exception unless a reason is already there, and any
     * failure, including LSMT's, deletes every opened file and sets
     * has_error.
     */
    method OpenLowers(ins: seq<LayerInput>, commitFileName: string, stacked: bool)
      returns (ret: bool, hasError: bool, released: seq<nat>)
      modifies this
      ensures ret ==> !hasError
      ensures ret <==> |ins| > 0 && !hasError
      ensures var os := Openings(ins, commitFileName);
        hasError <==> |ins| > 0 && (FailFrom(os, 0) < |ins| || !stacked)
      ensures !hasError ==> State() == old(State()) && released == []
      ensures var os := Openings(ins, commitFileName); var f := FailFrom(os, 0);
        hasError && old(status) == 0 && f < |ins| ==> State() == Boot(-1, os[f].reason)
      ensures var os := Openings(ins, commitFileName); var f := FailFrom(os, 0);
        hasError && old(status) != 0 ==> (status == old(status) &&
          exception == (if old(exception) != [] then old(exception)
                        else if f < |ins| then "failed to open layer " + Decimal(f)
                        else "failed to create overlaybd device"))
      ensures var os := Openings(ins, commitFileName);
        hasError && FailFrom(os, 0) == |ins| ==> (status == old(status) &&
          exception == (if old(exception) != [] then old(exception) else "failed to create overlaybd device"))
      ensures |ins| == 0 ==> downloads == old(downloads)
      ensures var os := Openings(ins, commitFileName);
        |ins| > 0 ==> downloads == old(downloads) + QueuedBy(os, AttemptEnd(os, Errnos(ins), 0, Workers(|ins|)))
      ensures var os := Openings(ins, commitFileName);
        FailFrom(os, 0) == |ins| ==> downloads == old(downloads) + QueuedBy(os, |ins|)
      ensures var os := Openings(ins, commitFileName);
        forall j :: j in released ==> j < |ins| && os[j].ok
      ensures var os := Openings(ins, commitFileName);
        hasError && FailFrom(os, 0) == |ins| ==> forall j :: 0 <= j < |ins| ==> j in released
    {
      if |ins| == 0 {
        return false, false, [];
      }
      var n := |ins|;
      ghost var os := Openings(ins, commitFileName);
      ghost var errnos := Errnos(ins);
      ghost var attempted;
      var files;
      files, attempted := OpenInParallel(ins, commitFileName);
      ghost var f := FailFrom(os, 0);
      AttemptPastFailure(os, errnos, 0, Workers(n));
      if f < n {
        if old(status) == 0 {
          BootAfterFailure(old(State()), os, attempted);
        } else {
          BootLatched(old(State()), os, attempted);
        }
      } else {
        BootBeforeFailure(old(State()), os, attempted);
      }
      var missing := FirstMissing(files);
      assert forall j :: 0 <= j < f ==> files[j];
      assert missing == f;
      if missing < n {
        if exception == [] {
          exception := "failed to open layer " + Decimal(missing);
        }
      } else if stacked {
        return true, false, [];
      }
      if exception == [] {
        exception := "failed to create overlaybd device";
      }
      released := Opened(files);
      return false, true, released;
    }

    /**
     * init_image_file: -1 when a lower layer failed, or when the upper layer
     * or the stacking of upper on lowers failed; otherwise 1, read-only
     * when either upper path is empty. On success with downloading enabled,
     * the background download of the queued layers starts after a delay.
     */
    method InitImageFile(ins: seq<LayerInput>, commitFileName: string, stacked: bool,
                         upperIndex: string, upperData: string, upperOpened: bool, upperStacked: bool, rand: nat)
      returns (r: int, readOnly: bool, download: Option<nat>)
      modifies this
      ensures r == 1 || r == -1
      ensures var os := Openings(ins, commitFileName);
        r == -1 <==>
          (|ins| > 0 && (FailFrom(os, 0) < |ins| || !stacked)) ||
          (upperIndex != [] && upperData != [] && !(upperOpened && upperStacked))
      ensures r == 1 ==> (readOnly <==> upperIndex == [] || upperData == [])
      ensures var os := Openings(ins, commitFileName); var f := FailFrom(os, 0);
        f < |ins| && old(status) == 0 ==> State() == Boot(-1, os[f].reason)
      ensures r == 1 ==> State() == old(State())
      ensures var os := Openings(ins, commitFileName);
        |ins| > 0 ==> downloads == old(downloads) + QueuedBy(os, AttemptEnd(os, Errnos(ins), 0, Workers(|ins|)))
      ensures var os := Openings(ins, commitFileName);
        FailFrom(os, 0) == |ins| ==> downloads == old(downloads) + QueuedBy(os, |ins|)
      ensures download.Some? <==> r == 1 && downloadEnabled && downloads != []
      ensures download.Some? ==> download.value == DownloadDelay(delay, delayExtra, rand)
      ensures (r == 1 && downloadEnabled &&
        exists j :: 0 <= j < |ins| && LayerSource(ins[j].layer, ins[j].downloaded, commitFileName).RemoteBlob?) ==> download.Some?
    {
      var lower, hasError, released := OpenLowers(ins, commitFileName, stacked);
      download := None;
      if hasError {
        return -1, false, None;
      }
      if upperIndex == [] || upperData == [] {
        readOnly := true;
      } else {
        if !upperOpened || !upperStacked {
          return -1, false, None;
        }
        readOnly := false;
      }
      if downloadEnabled {
        if j :| 0 <= j < |ins| && LayerSource(ins[j].layer, ins[j].downloaded, commitFileName).RemoteBlob? {
          QueuedIncludes(Openings(ins, commitFileName), |ins|, j);
        }
        download := StartDownload(rand);
      }
      return 1, readOnly, download;
    }

    /** start_bk_dl_thread: nothing queued, nothing to do; else the delay before the download. */
    method StartDownload(rand: nat) returns (d: Option<nat>)
      ensures d.None? <==> downloads == []
      ensures d.Some? ==> d.value == DownloadDelay(delay, delayExtra, rand)
    {
      if downloads == [] {
        return None;
      }
      var extra := delayExtra;
      extra := if extra <= 0 then DEFAULT_EXTRA else extra;
      return Some(rand % extra + delay);
    }
  }

  /** The index of the first layer left unopened, or |files| when every one opened. */
  method FirstMissing(files: seq<bool>) returns (k: nat)
    ensures k <= |files|
    ensures forall j :: 0 <= j < k ==> files[j]
    ensures k < |files| ==> !files[k]
  {
    k := 0;
    while k < |files| && files[k]
      invariant k <= |files|
      invariant forall j :: 0 <= j < k ==> files[j]
    {
      k := k + 1;
    }
  }

  /** The indices of the opened layers, in order: the files deleted on error. */
  method Opened(files: seq<bool>) returns (indices: seq<nat>)
    ensures forall j :: j in indices ==> j < |files| && files[j]
    ensures forall j :: 0 <= j < |files| && files[j] ==> j in indices
  {
    indices := [];
    var j := 0;
    while j < |files|
      invariant j <= |files|
      invariant forall x :: x in indices ==> x < j && files[x]
      invariant forall x :: 0 <= x < j && files[x] ==> x in indices
    {
      if files[j] {
        indices := indices + [j];
      }
      j := j + 1;
    }
  }

  /**
   * ParallelOpenTask: the job counter the open coroutines share. Each
   * layer index is handed out once, in order; a worker stops at the end of
   * the list or once an error has been recorded, and records errno when
   * its own open fails. The ghost fields follow the image file: the layers
   * tried so far are a prefix, and the boot status and dl_list are what
   * opening that prefix makes of them.
   */
  class ParallelOpenTask {
    const img: ImageFile
    const ins: seq<LayerInput>
    const commitFileName: string
    const nlayers: nat
    var i: nat
    var eno: int
    /** files[j]: whether layer j's file is open. */
    var files: seq<bool>
    /** What opening each layer does, and errno after each failure. */
    ghost const os: seq<Opening>
    ghost const errnos: seq<int>
    /** The layers 0 .. attempted-1 have gone through open_lower_layer. */
    ghost var attempted: nat
    ghost const boot0: Boot
    ghost const downloads0: seq<string>

    constructor(img: ImageFile, ins: seq<LayerInput>, commitFileName: string)
      ensures this.img == img && this.ins == ins && this.commitFileName == commitFileName && nlayers == |ins|
      ensures Describes()
      ensures i == 0 && eno == 0 && files == seq(|ins|, _ => false) && attempted == 0
      ensures boot0 == img.State() && downloads0 == img.downloads
      ensures Valid()
    {
      this.img := img;
      this.ins := ins;
      this.commitFileName := commitFileName;
      nlayers := |ins|;
      i := 0;
      eno := 0;
      files := seq(|ins|, _ => false);
      os := img.Openings(ins, commitFileName);
      errnos := Errnos(ins);
      attempted := 0;
      boot0 := img.State();
      downloads0 := img.downloads;
    }

    /**
     * Tried layers are a prefix no longer than what was handed out (and
     * equal to it while no error is recorded); exactly the tried layers
     * that opened are open; and the image's boot status and dl_list are
     * what opening the tried layers in order makes of the initial ones.
     */
    ghost predicate Valid()
      reads this, img
    {
      nlayers == |ins| == |os| == |errnos| && |files| == nlayers && attempted <= i <= nlayers &&
      (eno == 0 ==> i == attempted) &&
      (forall j :: 0 <= j < nlayers ==> (files[j] <==> j < attempted && os[j].ok)) &&
      img.State() == BootAfter(boot0, os, attempted) &&
      img.downloads == downloads0 + QueuedBy(os, attempted)
    }

    /** os and errnos describe the layer list; none of it changes. */
    ghost predicate Describes()
    {
      nlayers == |ins| == |os| == |errnos| &&
      (forall j :: 0 <= j < |ins| ==> errnos[j] == ins[j].errno) &&
      forall j {:trigger img.OpeningOf(ins[j], commitFileName)} :: 0 <= j < |ins| ==> os[j] == img.OpeningOf(ins[j], commitFileName)
    }

    /** open_lower_layer on layer idx: the image file changes as that layer's opening says. */
    method OpenOne(idx: nat) returns (r: int)
      requires Describes() && idx < nlayers
      modifies img
      ensures r == 0 || r == -1
      ensures r == 0 <==> os[idx].ok
      ensures img.State() == (if os[idx].ok then old(img.State()) else Failed(old(img.State()), os[idx].reason))
      ensures img.downloads == old(img.downloads) + os[idx].queued
    {
      var input := ins[idx];
      var file;
      r, file := img.OpenLowerLayer(input.layer, input.downloaded, commitFileName, input.local, input.remote);
      assert os[idx] == img.OpeningOf(ins[idx], commitFileName);
    }

    /** get_next_job_index: the next index while any remain, else -1. */
    method NextJob() returns (idx: int)
      modifies this
      ensures old(i) < nlayers ==> idx == old(i) && i == old(i) + 1
      ensures old(i) >= nlayers ==> idx == -1 && i == old(i)
      ensures eno == old(eno) && files == old(files) && attempted == old(attempted)
    {
      if i < nlayers {
        idx := i;
        i := i + 1;
      } else {
        idx := -1;
      }
    }

    /**
     * One pass of the worker loop: take the next index and stop at the end
     * of the list or on a recorded error; otherwise open that layer, and
     * on failure record errno and stop. Where the opening stops, with wl
     * workers left, is kept.
     */
    method Step(ghost wl: nat) returns (done: bool)
      requires Describes() && Valid() && wl >= 1
      modifies this, img
      ensures Valid() && old(i) <= i
      ensures !done ==> (i == old(i) + 1 && eno == old(eno) == 0 && attempted == old(attempted) + 1 &&
        AttemptEnd(os, errnos, attempted, wl) == AttemptEnd(os, errnos, old(attempted), wl))
      ensures done ==> Continue(os, errnos, attempted, eno, wl - 1) == Continue(os, errnos, old(attempted), old(eno), wl)
    {
      var idx := NextJob();
      if idx == -1 || eno != 0 {
        return true;
      }
      var r := OpenOne(idx);
      attempted := attempted + 1;
      if r < 0 {
        eno := ins[idx].errno;
        return true;
      }
      files := files[idx := true];
      assert AttemptEnd(os, errnos, idx, wl) == AttemptEnd(os, errnos, idx + 1, wl);
      return false;
    }

    /**
     * do_parallel_open_files: one worker takes indices until none remain,
     * an error has been recorded, or its own open fails (whose errno it
     * records). With wl workers left, this one included, where the opening
     * stops is the same before and after it runs.
     */
    method Work(ghost wl: nat)
      requires Describes() && Valid() && wl >= 1
      modifies this, img
      ensures Valid()
      ensures Continue(os, errnos, attempted, eno, wl - 1) == Continue(os, errnos, old(attempted), old(eno), wl)
    {
      ghost var a0 := attempted;
      ghost var e0 := eno;
      var done := false;
      while !done
        invariant Valid()
        invariant !done ==> (eno == e0 && (e0 != 0 ==> attempted == a0) &&
          (e0 == 0 ==> AttemptEnd(os, errnos, attempted, wl) == AttemptEnd(os, errnos, a0, wl)))
        invariant done ==> Continue(os, errnos, attempted, eno, wl - 1) == Continue(os, errnos, a0, e0, wl)
        decreases (if done then 0 else 1) + nlayers - i
      {
        done := Step(wl);
      }
    }
  }
}
