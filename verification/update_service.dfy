/**
 The over-the-air update: the version recorded on the SD card, the tag and
 asset URL of the latest GitHub release, the "is newer" test, and the
 download-and-swap of the kernel image. The SD card is a map from path to
 content; the HTTP answers and the outcomes of the card operations that can fail
 for reasons outside the program (the download, the rename, the version write)
 are parameters.
 */
module UpdateService {
  import opened Wrappers
  import opened Text

  const GITHUB_API_HOST: string := "api.github.com"
  const RELEASES_PATH: string := "/repos/dustinahudson/magic-mirror/releases/latest"
  const VERSION_FILE: string := "SD:/version.txt"
  const KERNEL_NEW: string := "SD:/kernel.new"
  const KERNEL_IMG: string := "SD:/kernel.img"

  const VERSION_SIZE: nat := 64
  const TAG_SIZE: nat := 64
  const URL_SIZE: nat := 512

  /** The SD card: the content of each file present. */
  type Card = map<string, string>

  // ---------------------------------------------------------------------------
  // IsNewer
  // ---------------------------------------------------------------------------

  /** IsNewer: any difference between the tags counts as an update, a downgrade included. */
  function IsNewer(remoteTag: string, localTag: string): bool {
    remoteTag != localTag
  }

  /** IsNewer is irreflexive and symmetric, so it is no ordering: "v1.0" is newer than "v2.0". */
  lemma {:induction false} IsNewerIsDifference(a: string, b: string)
    ensures !IsNewer(a, a)
    ensures IsNewer(a, b) == IsNewer(b, a)
    ensures IsNewer("v1.0", "v2.0") && IsNewer("v2.0", "v1.0")
  {
  }

  // ---------------------------------------------------------------------------
  // ReadCurrentVersion
  // ---------------------------------------------------------------------------

  predicate IsTrimmed(c: char) { c == '\n' || c == '\r' || c == ' ' }

  /** The version with its trailing newlines, carriage returns and spaces removed. */
  function TrimTrailing(s: string): (r: string)
    ensures r <= s
    ensures forall i | |r| <= i < |s| :: IsTrimmed(s[i])
    ensures |r| > 0 ==> !IsTrimmed(r[|r| - 1])
    decreases |s|
  {
    if |s| > 0 && IsTrimmed(s[|s| - 1]) then
      var r := TrimTrailing(s[..|s| - 1]);
      assert forall i | |r| <= i < |s| - 1 :: s[i] == s[..|s| - 1][i];
      r
    else s
  }

  /** Trimming is idempotent. */
  lemma {:induction false} TrimTrailingIdempotent(s: string)
    ensures TrimTrailing(TrimTrailing(s)) == TrimTrailing(s)
  {
    var r := TrimTrailing(s);
    if |r| > 0 {
      assert !IsTrimmed(r[|r| - 1]);
    }
  }

  /** Trailing padding of spaces and line ends is removed exactly, whatever the value ends in otherwise. */
  lemma {:induction false} TrimTrailingPadding(v: string, pad: string)
    requires |v| > 0 && !IsTrimmed(v[|v| - 1])
    requires forall i | 0 <= i < |pad| :: IsTrimmed(pad[i])
    ensures TrimTrailing(v + pad) == v
    decreases |pad|
  {
    if |pad| > 0 {
      assert (v + pad)[..|v + pad| - 1] == v + pad[..|pad| - 1];
      TrimTrailingPadding(v, pad[..|pad| - 1]);
    } else {
      assert v + pad == v;
    }
  }

  /**
   ReadCurrentVersion: None when the version file cannot be opened; otherwise the
   first 63 characters read, trimmed, and whether anything was left. The version
   the rest of the program compares is the C string of that text.
   */
  function ReadCurrentVersion(card: Card): (r: Option<string>)
    ensures VERSION_FILE !in card ==> r.None?
    ensures r.Some? ==> |r.value| < VERSION_SIZE && 0 as char !in r.value
    ensures r.Some? ==> exists n | 0 < n < VERSION_SIZE :: n <= |card[VERSION_FILE]|
                          && r.value == CStr(TrimTrailing(card[VERSION_FILE][..n]))
  {
    if VERSION_FILE !in card then None
    else
      var content := card[VERSION_FILE];
      var read := if |content| < VERSION_SIZE then content else content[..VERSION_SIZE - 1];
      var trimmed := TrimTrailing(read);
      if trimmed == [] then None
      else
        assert read == content[..|read|];
        Some(CStr(trimmed))
  }

  /** A version file holding a tag and a newline yields the tag. */
  lemma {:induction false} VersionFileWithNewline(card: Card, tag: string)
    requires 0 < |tag| < VERSION_SIZE - 1 && !IsTrimmed(tag[|tag| - 1]) && 0 as char !in tag
    requires VERSION_FILE in card && card[VERSION_FILE] == tag + "\n"
    ensures ReadCurrentVersion(card) == Some(tag)
  {
    TrimTrailingPadding(tag, "\n");
    CStrOfPlain(tag);
  }

  // ---------------------------------------------------------------------------
  // FetchLatestRelease
  // ---------------------------------------------------------------------------

  /** The characters from p up to a '"', a NUL or the end, at most `room` of them. */
  function CopyUntilQuote(s: string, p: nat, room: nat): (r: string)
    requires p <= |s|
    ensures |r| <= room && PlacedAt(s, p, r)
    ensures '"' !in r && 0 as char !in r
    ensures |r| < room ==> p + |r| == |s| || s[p + |r|] == '"' || s[p + |r|] == 0 as char
    decreases room
  {
    if room == 0 || p == |s| || s[p] == '"' || s[p] == 0 as char then []
    else
      var rest := CopyUntilQuote(s, p + 1, room - 1);
      assert forall j | 0 <= j < |rest| :: s[p + 1 + j] == rest[j];
      [s[p]] + rest
  }

  /**
   The value after a key: from the end of the key's first occurrence, skip to the
   next '"' and copy what follows up to the closing '"', at most size - 1
   characters. None when the key or the opening quote is missing.
   */
  function QuotedAfter(body: string, key: string, size: nat): (r: Option<string>)
    requires size >= 1
    ensures r.Some? ==> |r.value| < size && '"' !in r.value
    ensures Find(body, key, 0).None? ==> r.None?
  {
    var k := Find(body, key, 0);
    if k.None? then None
    else
      var q := FindChar(body, '"', k.value + |key|);
      if q.None? then None else Some(CopyUntilQuote(body, q.value + 1, size - 1))
  }

  /** A release: its tag and the download URL of its first asset. */
  datatype Release = Release(tag: string, assetUrl: string)

  /**
   FetchLatestRelease, given the body the GET of RELEASES_PATH returned (None when
   the request failed): the quoted values after "tag_name" and
   "browser_download_url", which must both be present and non-empty.
   */
  function FetchLatestRelease(response: Option<string>): (r: Option<Release>)
    ensures r.Some? ==> response.Some?
    ensures r.Some? ==> 0 < |r.value.tag| < TAG_SIZE && 0 < |r.value.assetUrl| < URL_SIZE
    ensures r.Some? ==> QuotedAfter(CStr(response.value), "\"tag_name\"", TAG_SIZE) == Some(r.value.tag)
    ensures r.Some? ==> QuotedAfter(CStr(response.value), "\"browser_download_url\"", URL_SIZE) == Some(r.value.assetUrl)
  {
    if response.None? then None
    else
      var body := CStr(response.value);
      var tag := QuotedAfter(body, "\"tag_name\"", TAG_SIZE);
      var url := QuotedAfter(body, "\"browser_download_url\"", URL_SIZE);
      if tag.None? || url.None? || tag.value == [] || url.value == [] then None
      else Some(Release(tag.value, url.value))
  }

  /**
   The value read after a key is the text between the next two quotes: with the
   key first found at k, the next '"' at q and a quote-free v closed by '"' after
   it, QuotedAfter gives v when it fits the buffer.
   */
  lemma {:induction false} QuotedAfterReads(body: string, key: string, k: nat, q: nat, v: string, size: nat)
    requires size >= 1 && |v| < size && '"' !in v && 0 as char !in v
    requires Find(body, key, 0) == Some(k) && FindChar(body, '"', k + |key|) == Some(q)
    requires PlacedAt(body, q + 1, v) && q + 1 + |v| < |body| && body[q + 1 + |v|] == '"'
    ensures QuotedAfter(body, key, size) == Some(v)
  {
    CopyReadsPlaced(body, q + 1, size - 1, v);
  }

  /** CopyUntilQuote reads back a placed text that ends at a quote. */
  lemma {:induction false} CopyReadsPlaced(s: string, p: nat, room: nat, v: string)
    requires |v| <= room && '"' !in v && 0 as char !in v
    requires PlacedAt(s, p, v) && p + |v| < |s| && s[p + |v|] == '"'
    ensures CopyUntilQuote(s, p, room) == v
    decreases |v|
  {
    if |v| > 0 {
      assert s[p + 0] == v[0] && v[0] in v;
      assert forall c | c in v[1..] :: c in v;
      assert forall j | 0 <= j < |v[1..]| :: s[p + 1 + j] == s[p + (j + 1)] == v[1..][j];
      CopyReadsPlaced(s, p + 1, room - 1, v[1..]);
    }
  }

  /** A value that does not fit keeps its first size - 1 characters. */
  lemma {:induction false} QuotedAfterTruncates(body: string, key: string, k: nat, q: nat, v: string, size: nat)
    requires size >= 1 && |v| >= size && '"' !in v && 0 as char !in v
    requires Find(body, key, 0) == Some(k) && FindChar(body, '"', k + |key|) == Some(q)
    requires PlacedAt(body, q + 1, v)
    ensures QuotedAfter(body, key, size) == Some(v[..size - 1])
  {
    CopyTruncates(body, q + 1, size - 1, v);
  }

  /** CopyUntilQuote stops after `room` characters of a longer placed text. */
  lemma {:induction false} CopyTruncates(s: string, p: nat, room: nat, v: string)
    requires room <= |v| && '"' !in v && 0 as char !in v && PlacedAt(s, p, v)
    ensures CopyUntilQuote(s, p, room) == v[..room]
    decreases room
  {
    if room > 0 {
      assert s[p + 0] == v[0] && v[0] in v;
      assert forall c | c in v[1..] :: c in v;
      assert forall j | 0 <= j < |v[1..]| :: s[p + 1 + j] == s[p + (j + 1)] == v[1..][j];
      CopyTruncates(s, p + 1, room - 1, v[1..]);
      assert v[..room] == [v[0]] + v[1..][..room - 1];
    }
  }

  /** A body without a "tag_name" key, such as an API error message, gives no release. */
  lemma {:induction false} NoTagNoRelease(response: string)
    requires !Contains(CStr(response), "\"tag_name\"")
    ensures FetchLatestRelease(Some(response)).None?
  {
    NotContainedNotFound(CStr(response), "\"tag_name\"", 0);
  }

  // ---------------------------------------------------------------------------
  // DownloadAndInstall
  // ---------------------------------------------------------------------------

  /** How writing the version file ends: not opened, opened (and so emptied) but not fully written, or written. */
  datatype WriteOutcome = OpenFailed | WriteFailed(partial: string) | Written

  /** The outcomes of the steps that depend on the network and the card. */
  datatype Outcomes = Outcomes(download: Option<string>, renameOk: bool, versionWrite: WriteOutcome)

  /** WriteVersion: the version file after the attempt, and whether it succeeded. */
  function WriteVersion(card: Card, version: string, w: WriteOutcome): (r: (bool, Card))
    ensures r.0 <==> w.Written?
    ensures r.0 ==> r.1 == card[VERSION_FILE := version]
    ensures forall f | f != VERSION_FILE :: (f in r.1 <==> f in card) && (f in card ==> r.1[f] == card[f])
  {
    match w
    case OpenFailed => (false, card)
    case WriteFailed(partial) => (false, card[VERSION_FILE := partial])
    case Written => (true, card[VERSION_FILE := version])
  }

  /**
   DownloadAndInstall: download the asset to kernel.new; remove it again when the
   download failed or left it empty; otherwise delete kernel.img, rename kernel.new
   to kernel.img and record the version, whose failure does not undo the update.
   */
  function DownloadAndInstall(card: Card, newVersion: string, o: Outcomes): (r: (bool, Card))
    ensures r.0 <==> o.download.Some? && o.download.value != [] && o.renameOk
    ensures r.0 ==> KERNEL_IMG in r.1 && r.1[KERNEL_IMG] == o.download.value && KERNEL_NEW !in r.1
  {
    if o.download.None? || o.download.value == [] then (false, card - {KERNEL_NEW})
    else
      var swapped := card[KERNEL_NEW := o.download.value] - {KERNEL_IMG};
      if !o.renameOk then (false, swapped)
      else
        var installed := (swapped - {KERNEL_NEW})[KERNEL_IMG := o.download.value];
        (true, WriteVersion(installed, newVersion, o.versionWrite).1)
  }

  /** A failed or empty download leaves no kernel.new and kernel.img as it was. */
  lemma {:induction false} FailedDownloadKeepsKernel(card: Card, newVersion: string, o: Outcomes)
    requires o.download.None? || o.download.value == []
    ensures var (ok, after) := DownloadAndInstall(card, newVersion, o);
            !ok && KERNEL_NEW !in after && (KERNEL_IMG in after <==> KERNEL_IMG in card)
            && (KERNEL_IMG in card ==> after[KERNEL_IMG] == card[KERNEL_IMG])
  {
  }

  /** kernel.img is deleted before the rename: a failed rename leaves the card without a kernel image. */
  lemma {:induction false} FailedRenameLosesKernel(card: Card, newVersion: string, o: Outcomes)
    requires o.download.Some? && o.download.value != [] && !o.renameOk
    ensures var (ok, after) := DownloadAndInstall(card, newVersion, o);
            !ok && KERNEL_IMG !in after && KERNEL_NEW in after
  {
  }

  /** Once the image is in place the update reports success, even when the version file was not written. */
  lemma {:induction false} InstalledDespiteVersionWrite(card: Card, newVersion: string, o: Outcomes)
    requires o.download.Some? && o.download.value != [] && o.renameOk && !o.versionWrite.Written?
    ensures DownloadAndInstall(card, newVersion, o).0
    ensures VERSION_FILE in card && o.versionWrite.OpenFailed? ==>
              DownloadAndInstall(card, newVersion, o).1[VERSION_FILE] == card[VERSION_FILE]
  {
  }

  /** A full install records the new version, so the next check reads it back and sees no update. */
  lemma {:induction false} InstallRecordsVersion(card: Card, rel: Release, o: Outcomes)
    requires o.download.Some? && o.download.value != [] && o.renameOk && o.versionWrite.Written?
    requires 0 < |rel.tag| < VERSION_SIZE - 1 && !IsTrimmed(rel.tag[|rel.tag| - 1]) && 0 as char !in rel.tag
    ensures var after := DownloadAndInstall(card, rel.tag, o).1;
            ReadCurrentVersion(after) == Some(rel.tag) && !IsNewer(rel.tag, ReadCurrentVersion(after).value)
  {
    var after := DownloadAndInstall(card, rel.tag, o).1;
    assert after[VERSION_FILE] == rel.tag;
    assert rel.tag + "" == rel.tag;
    TrimTrailingPadding(rel.tag, "");
    CStrOfPlain(rel.tag);
  }

  // ---------------------------------------------------------------------------
  // CheckAndUpdate
  // ---------------------------------------------------------------------------

  /**
   The version CheckAndUpdate compares against: the recorded one, else the
   compile-time APP_VERSION when the build defines it (None when it does not).
   */
  function CurrentVersion(card: Card, appVersion: Option<string>): (r: Option<string>)
    ensures ReadCurrentVersion(card).Some? ==> r == ReadCurrentVersion(card)
    ensures ReadCurrentVersion(card).None? ==> (r.Some? <==> appVersion.Some?)
  {
    var recorded := ReadCurrentVersion(card);
    if recorded.Some? then recorded
    else if appVersion.Some? then Some(Truncate(appVersion.value, VERSION_SIZE))
    else None
  }

  /**
   CheckAndUpdate: true, with the new card, only when a version is known, the
   release was fetched, its tag differs from the version and the install succeeded.
   Every earlier failure leaves the card untouched.
   */
  function CheckAndUpdate(card: Card, appVersion: Option<string>, response: Option<string>, o: Outcomes): (r: (bool, Card))
    ensures r.0 <==> CurrentVersion(card, appVersion).Some? && FetchLatestRelease(response).Some?
                     && IsNewer(FetchLatestRelease(response).value.tag, CurrentVersion(card, appVersion).value)
                     && DownloadAndInstall(card, FetchLatestRelease(response).value.tag, o).0
    ensures CurrentVersion(card, appVersion).None? || FetchLatestRelease(response).None? ==> r.1 == card
  {
    var current := CurrentVersion(card, appVersion);
    if current.None? then (false, card)
    else
      var release := FetchLatestRelease(response);
      if release.None? then (false, card)
      else if !IsNewer(release.value.tag, current.value) then (false, card)
      else DownloadAndInstall(card, release.value.tag, o)
  }

  /** When the recorded version equals the latest tag nothing is downloaded and the card is unchanged. */
  lemma {:induction false} UpToDateLeavesCard(card: Card, appVersion: Option<string>, response: Option<string>, o: Outcomes)
    requires ReadCurrentVersion(card).Some? && FetchLatestRelease(response).Some?
    requires FetchLatestRelease(response).value.tag == ReadCurrentVersion(card).value
    ensures CheckAndUpdate(card, appVersion, response, o) == (false, card)
  {
  }
}
