/**
 * The settings screen of src/Controllers/AdminController.php: the
 * whitelisted text settings, the five logo uploads and the `settings`
 * key/value table they are written to. `$_FILES` is a map from input names
 * to `Upload` records; `move_uploaded_file` is represented by the outcome it
 * would report.
 */
module Admin {
  import opened Wrappers
  import opened Strings
  import opened Numbers
  import Auth

  /** The settings the form may write. */
  const ValidKeys: seq<string> :=
    ["app_name", "primary_color", "app_logo", "login_logo", "app_favicon", "app_logo_dark", "login_logo_dark"]

  /** The file extensions an upload may carry (after lower-casing). */
  const AllowedExtensions: seq<string> := ["png", "jpg", "jpeg", "svg", "ico"]

  /** The file inputs `update` looks at, each with the setting it writes, in call order. */
  const UploadSlots: seq<(string, string)> := [
    ("logo_file", "app_logo"),
    ("login_logo_file", "login_logo"),
    ("logo_dark_file", "app_logo_dark"),
    ("login_logo_dark_file", "login_logo_dark"),
    ("favicon_file", "app_favicon")]

  /** UPLOAD_ERR_OK. */
  const UploadOk := 0

  /** One `$_FILES` entry, with what `move_uploaded_file` reports for it. */
  datatype Upload = Upload(name: string, error: int, moved: bool)

  /** Position of the last `c` in `s`. */
  function LastIndexOf(s: string, c: char): (r: Option<nat>)
    ensures r.None? <==> c !in s
    ensures r.Some? ==> r.value < |s| && s[r.value] == c && c !in s[r.value + 1..]
  {
    if s == [] then None
    else if s[|s| - 1] == c then Some(|s| - 1)
    else
      var r := LastIndexOf(s[..|s| - 1], c);
      assert r.Some? ==> s[r.value + 1..] == s[..|s| - 1][r.value + 1..] + [s[|s| - 1]];
      assert r.None? ==> s == s[..|s| - 1] + [s[|s| - 1]];
      r
  }

  /** Appending text without `c` leaves the last `c` where it was. */
  lemma {:induction false} LastIndexOfAppend(s: string, t: string, c: char)
    requires c !in t
    ensures LastIndexOf(s + t, c) == LastIndexOf(s, c)
  {
    if t != [] {
      var u := s + t;
      assert u[..|u| - 1] == s + t[..|t| - 1];
      assert t[|t| - 1] == u[|u| - 1];
      LastIndexOfAppend(s, t[..|t| - 1], c);
    } else {
      assert s + t == s;
    }
  }

  /** `basename`: what follows the last '/'. */
  function Basename(path: string): (b: string)
    ensures '/' !in b
    ensures |b| <= |path| && b == path[|path| - |b|..]
  {
    match LastIndexOf(path, '/')
    case None => path
    case Some(i) => path[i + 1..]
  }

  /** `pathinfo($name, PATHINFO_EXTENSION)`: what follows the last '.' of the base name, or ''. */
  function RawExtension(name: string): (e: string)
    ensures '.' !in e && '/' !in e
  {
    var b := Basename(name);
    match LastIndexOf(b, '.')
    case None => ""
    case Some(i) => b[i + 1..]
  }

  /** `strtolower(pathinfo($name, PATHINFO_EXTENSION))`. */
  function Extension(name: string): string {
    ToLower(RawExtension(name))
  }

  /** A name ending in "." and a plain extension has that extension. */
  lemma BasenameOfName(stem: string, ext: string)
    requires '/' !in ext
    ensures Basename(stem + "." + ext) == Basename(stem) + "." + ext
  {
    var name := stem + "." + ext;
    assert name == stem + ("." + ext);
    LastIndexOfAppend(stem, "." + ext, '/');
    match LastIndexOf(stem, '/')
    case None =>
    case Some(i) =>
      assert name[i + 1..] == stem[i + 1..] + "." + ext;
  }

  lemma LastDotBeforeExtension(base: string, ext: string)
    requires '.' !in ext
    ensures LastIndexOf(base + "." + ext, '.') == Some(|base|)
  {
    var p := base + ".";
    LastIndexOfAppend(p, ext, '.');
    assert LastIndexOf(p, '.') == Some(|p| - 1);
  }

  lemma ExtensionOfName(stem: string, ext: string)
    requires '.' !in ext && '/' !in ext
    ensures RawExtension(stem + "." + ext) == ext
  {
    var base := Basename(stem);
    BasenameOfName(stem, ext);
    LastDotBeforeExtension(base, ext);
    var b := base + "." + ext;
    assert b[|base| + 1..] == ext;
  }

  /** The file name `handleUpload` gives an upload: `<key>_<time>.<ext>`. */
  function StoredName(key: string, time: nat, ext: string): string {
    key + "_" + NatToString(time) + "." + ext
  }

  /** The public path `handleUpload` stores: `/uploads/<key>_<time>.<ext>`. */
  function UploadedPath(key: string, time: nat, ext: string): string {
    "/uploads/" + StoredName(key, time, ext)
  }

  /** A stored path carries the extension it was stored with. */
  lemma UploadedPathExtension(key: string, time: nat, ext: string)
    requires '.' !in ext && '/' !in ext
    ensures RawExtension(UploadedPath(key, time, ext)) == ext
    ensures Extension(UploadedPath(key, time, ext)) == ToLower(ext)
  {
    var t := key + "_" + NatToString(time);
    var dir := "/uploads/";
    assert StoredName(key, time, ext) == (t + ".") + ext;
    assert dir + ((t + ".") + ext) == (dir + (t + ".")) + ext;
    assert dir + (t + ".") == (dir + t) + ".";
    ExtensionOfName(dir + t, ext);
  }

  /** The text-setting rule for one key: `isset($_POST[$key]) && !empty($_POST[$key])`, then the trimmed value. */
  function ApplyText(values: map<string, string>, post: map<string, string>, keys: seq<string>): map<string, string>
  {
    if keys == [] then values
    else
      var before := ApplyText(values, post, keys[..|keys| - 1]);
      var key := keys[|keys| - 1];
      if key in post && !Empty(post[key]) then before[key := Trim(post[key])] else before
  }

  /** Whether `handleUpload` writes the setting for this input. */
  predicate Accepted(files: map<string, Upload>, input: string) {
    input in files && files[input].error == UploadOk
    && Extension(files[input].name) in AllowedExtensions && files[input].moved
  }

  /** `handleUpload($input, $key)`. */
  function ApplyUpload(values: map<string, string>, files: map<string, Upload>, slot: (string, string), time: nat)
    : map<string, string>
  {
    if Accepted(files, slot.0) then values[slot.1 := UploadedPath(slot.1, time, Extension(files[slot.0].name))]
    else values
  }

  /** The upload calls, first to last. */
  function ApplyUploads(values: map<string, string>, files: map<string, Upload>, slots: seq<(string, string)>, time: nat)
    : map<string, string>
    decreases |slots|
  {
    if slots == [] then values
    else ApplyUploads(ApplyUpload(values, files, slots[0], time), files, slots[1..], time)
  }

  /** The settings after a successful `update`. */
  function AfterUpdate(values: map<string, string>, post: map<string, string>, files: map<string, Upload>, time: nat)
    : map<string, string>
  {
    ApplyUploads(ApplyText(values, post, ValidKeys), files, UploadSlots, time)
  }

  /** `a` and `b` hold the same thing (or nothing) at `key`. */
  predicate Agree(a: map<string, string>, b: map<string, string>, key: string) {
    (key in a <==> key in b) && (key in a ==> a[key] == b[key])
  }

  lemma {:induction false} ApplyTextElsewhere(values: map<string, string>, post: map<string, string>,
                                              keys: seq<string>, key: string)
    requires key !in keys
    ensures Agree(ApplyText(values, post, keys), values, key)
  {
    if keys != [] {
      assert key !in keys[..|keys| - 1];
      ApplyTextElsewhere(values, post, keys[..|keys| - 1], key);
    }
  }

  lemma {:induction false} ApplyTextAt(values: map<string, string>, post: map<string, string>,
                                       keys: seq<string>, key: string)
    requires key in keys
    ensures key in post && !Empty(post[key]) ==>
              key in ApplyText(values, post, keys) && ApplyText(values, post, keys)[key] == Trim(post[key])
    ensures !(key in post && !Empty(post[key])) ==> Agree(ApplyText(values, post, keys), values, key)
  {
    var init := keys[..|keys| - 1];
    assert keys == init + [keys[|keys| - 1]];
    if keys[|keys| - 1] != key {
      ApplyTextAt(values, post, init, key);
    } else if key in init {
      ApplyTextAt(values, post, init, key);
    } else {
      ApplyTextElsewhere(values, post, init, key);
    }
  }

  lemma {:induction false} ApplyUploadsElsewhere(values: map<string, string>, files: map<string, Upload>,
                                                 slots: seq<(string, string)>, time: nat, key: string)
    requires forall i :: 0 <= i < |slots| ==> slots[i].1 != key
    ensures Agree(ApplyUploads(values, files, slots, time), values, key)
    decreases |slots|
  {
    if slots != [] {
      ApplyUploadsElsewhere(ApplyUpload(values, files, slots[0], time), files, slots[1..], time, key);
    }
  }

  /** Only whitelisted settings can change; every other key keeps its value (or its absence). */
  lemma OnlyValidKeysChange(values: map<string, string>, post: map<string, string>,
                            files: map<string, Upload>, time: nat, key: string)
    requires key !in ValidKeys
    ensures Agree(AfterUpdate(values, post, files, time), values, key)
  {
    ApplyTextElsewhere(values, post, ValidKeys, key);
    ApplyUploadsElsewhere(ApplyText(values, post, ValidKeys), files, UploadSlots, time, key);
  }

  /**
   * The two settings no upload writes take the trimmed posted value when
   * one was posted and is not empty before trimming, and keep their value
   * otherwise.
   */
  lemma TextSettingRule(values: map<string, string>, post: map<string, string>,
                        files: map<string, Upload>, time: nat, key: string)
    requires key == "app_name" || key == "primary_color"
    ensures key in post && !Empty(post[key]) ==>
              key in AfterUpdate(values, post, files, time) && AfterUpdate(values, post, files, time)[key] == Trim(post[key])
    ensures !(key in post && !Empty(post[key])) ==> Agree(AfterUpdate(values, post, files, time), values, key)
  {
    ApplyTextAt(values, post, ValidKeys, key);
    ApplyUploadsElsewhere(ApplyText(values, post, ValidKeys), files, UploadSlots, time, key);
  }

  /** A value of blanks is not empty to `empty()`, so it is written, and trimmed to ''. */
  lemma BlankTextIsStoredEmpty(values: map<string, string>, post: map<string, string>,
                               files: map<string, Upload>, time: nat)
    requires "app_name" in post && post["app_name"] == "   "
    ensures "app_name" in AfterUpdate(values, post, files, time)
    ensures AfterUpdate(values, post, files, time)["app_name"] == ""
  {
    TextSettingRule(values, post, files, time, "app_name");
    assert Trim("   ") == "";
  }

  lemma {:induction false} ApplyUploadsAt(values: map<string, string>, files: map<string, Upload>,
                                          slots: seq<(string, string)>, time: nat, k: nat)
    requires k < |slots|
    requires forall i :: 0 <= i < |slots| && i != k ==> slots[i].1 != slots[k].1
    ensures Accepted(files, slots[k].0) ==>
              slots[k].1 in ApplyUploads(values, files, slots, time)
              && ApplyUploads(values, files, slots, time)[slots[k].1]
                 == UploadedPath(slots[k].1, time, Extension(files[slots[k].0].name))
    ensures !Accepted(files, slots[k].0) ==>
              Agree(ApplyUploads(values, files, slots, time), values, slots[k].1)
    decreases |slots|
  {
    var next := ApplyUpload(values, files, slots[0], time);
    if k == 0 {
      ApplyUploadsElsewhere(next, files, slots[1..], time, slots[0].1);
    } else {
      ApplyUploadsAt(next, files, slots[1..], time, k - 1);
    }
  }

  /**
   * An upload slot's setting becomes the stored path exactly when the file
   * arrived without error, its lower-cased extension is allowed and it was
   * moved; otherwise it keeps whatever the text settings left there.
   */
  lemma UploadRule(values: map<string, string>, post: map<string, string>,
                   files: map<string, Upload>, time: nat, k: nat)
    requires k < |UploadSlots|
    ensures Accepted(files, UploadSlots[k].0) ==>
              UploadSlots[k].1 in AfterUpdate(values, post, files, time)
              && AfterUpdate(values, post, files, time)[UploadSlots[k].1]
              == UploadedPath(UploadSlots[k].1, time, Extension(files[UploadSlots[k].0].name))
    ensures !Accepted(files, UploadSlots[k].0) ==>
              Agree(AfterUpdate(values, post, files, time), ApplyText(values, post, ValidKeys), UploadSlots[k].1)
  {
    ApplyUploadsAt(ApplyText(values, post, ValidKeys), files, UploadSlots, time, k);
  }

  /** Lower-casing keeps '.' and '/' out of an extension, and changes nothing the second time. */
  lemma LoweredExtension(name: string)
    ensures '.' !in Extension(name) && '/' !in Extension(name)
    ensures ToLower(Extension(name)) == Extension(name)
  {
    var raw, ext := RawExtension(name), Extension(name);
    forall i | 0 <= i < |ext| ensures ext[i] != '.' && ext[i] != '/' {
      assert raw[i] in raw;
    }
    assert ToLower(ext) == ext;
  }

  /** A stored upload path ends in one of the allowed extensions. */
  lemma StoredPathHasAllowedExtension(files: map<string, Upload>, input: string, key: string, time: nat)
    requires Accepted(files, input)
    ensures Extension(UploadedPath(key, time, Extension(files[input].name))) in AllowedExtensions
  {
    var ext := Extension(files[input].name);
    LoweredExtension(files[input].name);
    UploadedPathExtension(key, time, ext);
  }

  /** The `settings` table. */
  class SettingsTable {
    var values: map<string, string>

    constructor (values: map<string, string>)
      ensures this.values == values
    {
      this.values := values;
    }

    /** `saveSetting`: `INSERT OR REPLACE`, so the key ends up holding the value and no other key changes. */
    method SaveSetting(key: string, value: string)
      modifies this
      ensures values == old(values)[key := value]
      ensures forall k :: k != key ==> Agree(values, old(values), k)
    {
      values := values[key := value];
    }
  }

  datatype AdminOutcome = LoginRequired | SessionExpired | NotAdmin | NotPost | BadToken | Saved

  class AdminController {
    const settings: SettingsTable

    constructor (settings: SettingsTable)
      ensures this.settings == settings
    {
      this.settings := settings;
    }

    /**
     * `handleUpload($input, $key)`: an upload that arrived without error,
     * whose lower-cased extension is allowed and which was moved into place
     * stores its public path under `key`.
     */
    method HandleUpload(files: map<string, Upload>, input: string, key: string, time: nat)
      modifies settings
      ensures settings.values == ApplyUpload(old(settings.values), files, (input, key), time)
    {
      if input in files && files[input].error == UploadOk {
        var ext := Extension(files[input].name);
        if ext in AllowedExtensions {
          var filename := key + "_" + NatToString(time) + "." + ext;
          if files[input].moved {
            settings.SaveSetting(key, "/uploads/" + filename);
          }
        }
      }
    }

    /**
     * `update` with the admin gate of the constructor in front: only an
     * admin with a live session, posting with a valid CSRF token, changes
     * the settings, and then exactly as `AfterUpdate` describes.
     * `csrfValid` is what `validateCsrfToken()` answers.
     */
    method Update(s: Auth.Session, time: nat, isPost: bool, csrfValid: bool,
                  post: map<string, string>, files: map<string, Upload>)
      returns (outcome: AdminOutcome, s': Auth.Session)
      modifies settings
      ensures outcome == LoginRequired <==> Auth.RequireAuth(s, time) == Auth.ToLogin
      ensures outcome == SessionExpired <==> Auth.RequireAuth(s, time) == Auth.Expired
      ensures outcome == NotAdmin <==> Auth.RequireAuth(s, time).Admitted? && !Auth.IsAdmin(s)
      ensures outcome == NotPost <==> Auth.RequireAuth(s, time).Admitted? && Auth.IsAdmin(s) && !isPost
      ensures outcome == BadToken <==> Auth.RequireAuth(s, time).Admitted? && Auth.IsAdmin(s) && isPost && !csrfValid
      ensures outcome == Saved <==> Auth.RequireAuth(s, time).Admitted? && Auth.IsAdmin(s) && isPost && csrfValid
      ensures s' == Auth.SessionAfterGate(s, time)
      ensures outcome == Saved ==> settings.values == AfterUpdate(old(settings.values), post, files, time)
      ensures outcome != Saved ==> settings.values == old(settings.values)
    {
      var g := Auth.RequireAuth(s, time);
      if g == Auth.ToLogin {
        return LoginRequired, s;
      }
      if g == Auth.Expired {
        return SessionExpired, Auth.NoSession;
      }
      s' := g.session;
      if !Auth.IsAdmin(s') {
        return NotAdmin, s';
      }
      if !isPost {
        return NotPost, s';
      }
      if !csrfValid {
        return BadToken, s';
      }
      ghost var initial := settings.values;
      for i := 0 to |ValidKeys|
        invariant settings.values == ApplyText(initial, post, ValidKeys[..i])
      {
        var key := ValidKeys[i];
        if key in post && !Empty(post[key]) {
          settings.SaveSetting(key, Trim(post[key]));
        }
        assert ValidKeys[..i + 1][..i] == ValidKeys[..i];
      }
      assert ValidKeys[..|ValidKeys|] == ValidKeys;
      ghost var texts := settings.values;
      HandleUpload(files, "logo_file", "app_logo", time);
      HandleUpload(files, "login_logo_file", "login_logo", time);
      HandleUpload(files, "logo_dark_file", "app_logo_dark", time);
      HandleUpload(files, "login_logo_dark_file", "login_logo_dark", time);
      HandleUpload(files, "favicon_file", "app_favicon", time);
      assert UploadSlots[1..][1..][1..][1..][1..] == [];
      outcome := Saved;
    }
  }
}
