/** The application's settings cache: one in-memory field per preference
    key, loaded once from the preference store with a fixed default, and
    written through to the store by its setters. The cache is an immutable
    record that carries the store it mirrors; every operation returns the
    next record. */
module AppSettings {
  import opened Lang
  import opened Preferences

  /** The boolean settings. */
  datatype BoolKey =
    | ShowSticky | AutoLogin | LastLoginSuccess | UserOnline
    | LoadOriginalImage | NightMode
    | NotificationMail | NotificationAt | NotificationLike | NotificationReply
    | LaunchHotTopic | PostNavBar

  /** The string settings. */
  datatype StringKey = Username | Password | Signature | Target

  /** Every preference key the cache mirrors. */
  datatype Key = FlagKey(flag: BoolKey) | TextKey(text: StringKey) | LastLaunchVersion

  /** The name each setting is stored under. */
  function KeyName(k: Key): string {
    match k
    case FlagKey(ShowSticky) => "show_sticky_topic"
    case FlagKey(AutoLogin) => "auto_login"
    case FlagKey(LastLoginSuccess) => "last_login_success"
    case FlagKey(UserOnline) => "user_online"
    case FlagKey(LoadOriginalImage) => "LOAD_ORIGINAL_IMAGE"
    case FlagKey(NightMode) => "NIGHT_MODE"
    case FlagKey(NotificationMail) => "NOTIFICATION_MAIL"
    case FlagKey(NotificationAt) => "NOTIFICATION_AT"
    case FlagKey(NotificationLike) => "NOTIFICATION_LIKE"
    case FlagKey(NotificationReply) => "NOTIFICATION_REPLY"
    case FlagKey(LaunchHotTopic) => "LAUNCH_HOTTOPIC_AS_ENTRY"
    case FlagKey(PostNavBar) => "SHOW_POST_NAVITATION_BAR"
    case TextKey(Username) => "username"
    case TextKey(Password) => "password"
    case TextKey(Signature) => "device_signature"
    case TextKey(Target) => "forward_target"
    case LastLaunchVersion => "LAST_LAUNCH_VERSION"
  }

  /** No two settings share a key, so writing one never disturbs another. */
  lemma KeyNamesDistinct(k1: Key, k2: Key)
    ensures k1 != k2 ==> KeyName(k1) != KeyName(k2)
  {
  }

  /** The default a flag is loaded with when the store does not hold it. */
  function FlagDefault(f: BoolKey): bool {
    match f
    case ShowSticky | LastLoginSuccess | UserOnline => false
    case _ => true
  }

  /** What `getSignature` answers when no signature is set. */
  const DEFAULT_SIGNATURE: string := "Android"

  const ALL_FLAGS: set<BoolKey> := {
    ShowSticky, AutoLogin, LastLoginSuccess, UserOnline, LoadOriginalImage, NightMode,
    NotificationMail, NotificationAt, NotificationLike, NotificationReply, LaunchHotTopic, PostNavBar}

  lemma FlagListed(f: BoolKey)
    ensures f in ALL_FLAGS
  {
    match f
    case ShowSticky =>
    case AutoLogin =>
    case LastLoginSuccess =>
    case UserOnline =>
    case LoadOriginalImage =>
    case NightMode =>
    case NotificationMail =>
    case NotificationAt =>
    case NotificationLike =>
    case NotificationReply =>
    case LaunchHotTopic =>
    case PostNavBar =>
  }

  /** One cached value per boolean setting. */
  type Flags = m: map<BoolKey, bool> | m.Keys == ALL_FLAGS
    witness map[
      ShowSticky := false, AutoLogin := false, LastLoginSuccess := false, UserOnline := false,
      LoadOriginalImage := false, NightMode := false,
      NotificationMail := false, NotificationAt := false, NotificationLike := false, NotificationReply := false,
      LaunchHotTopic := false, PostNavBar := false]

  const ALL_TEXTS: set<StringKey> := {Username, Password, Signature, Target}

  lemma TextListed(t: StringKey)
    ensures t in ALL_TEXTS
  {
  }

  /** One cached value per string setting; a string may be `null`. */
  type Texts = m: map<StringKey, Nullable<string>> | m.Keys == ALL_TEXTS
    witness map[Username := Null, Password := Null, Signature := Null, Target := Null]

  /** The cached fields, and the store they are written through to. */
  datatype Settings = Settings(flags: Flags, texts: Texts, lastVersion: int, store: Store)

  /** The boolean getters (`isAutoLogin`, `isNightMode`, `hasPostNavBar`, ...). */
  function Flag(s: Settings, f: BoolKey): bool {
    FlagListed(f);
    s.flags[f]
  }

  /** The string getters (`getUsername`, `getPassword`, `getTarget`), and the raw signature field. */
  function Text(s: Settings, t: StringKey): Nullable<string> {
    TextListed(t);
    s.texts[t]
  }

  /** How a string field is written to the store: `null` removes the key. */
  function StoredText(v: Nullable<string>): Nullable<Value> {
    match v
    case Null => Null
    case NonNull(x) => NonNull(StringValue(x))
  }

  /** `r` differs from `s` at most in the field `k` and in the store entry under its name. */
  ghost predicate OnlyChanged(s: Settings, r: Settings, k: Key) {
    && (forall f :: FlagKey(f) != k ==> Flag(r, f) == Flag(s, f))
    && (forall t :: TextKey(t) != k ==> Text(r, t) == Text(s, t))
    && (k != LastLaunchVersion ==> r.lastVersion == s.lastVersion)
    && AgreeExcept(s.store, r.store, KeyName(k))
  }

  /** The field `k` equals what loading it from the store would give. A
      `null` string field corresponds to a removed key. */
  ghost predicate Mirrors(s: Settings, k: Key) {
    match k
    case FlagKey(f) => GetBoolean(s.store, KeyName(k), FlagDefault(f)) == Ok(Flag(s, f))
    case TextKey(t) =>
      (match Text(s, t)
       case Null => Lookup(s.store, KeyName(k)).Null?
       case NonNull(x) => GetString(s.store, KeyName(k), "") == Ok(x))
    case LastLaunchVersion => GetInt(s.store, KeyName(k), 0) == Ok(s.lastVersion)
  }

  /** The write-through invariant: every field mirrors its store entry. */
  ghost predicate Coherent(s: Settings) {
    forall k :: Mirrors(s, k)
  }

  /** A boolean setter (`setAutoLogin`, `setNightMode`, `setPostNavBar`, ...):
      the key is written exactly when the value changes. */
  function SetFlag(s: Settings, f: BoolKey, v: bool): (r: Settings)
    ensures Flag(r, f) == v
    ensures |r.store.log| == |s.store.log| + (if Flag(s, f) != v then 1 else 0)
    ensures Flag(s, f) != v ==> r.store == Commit(s.store, KeyName(FlagKey(f)), NonNull(BoolValue(v)))
    ensures Flag(s, f) == v ==> r == s
    ensures OnlyChanged(s, r, FlagKey(f))
  {
    if Flag(s, f) != v then
      s.(flags := (FlagListed(f); s.flags[f := v]), store := Commit(s.store, KeyName(FlagKey(f)), NonNull(BoolValue(v))))
    else
      s
  }

  /** The store after a string setter caching `cached` is called with `v`:
      written unless the cached value is non-null and equal to `v`. */
  function TextWrite(st: Store, t: StringKey, cached: Nullable<string>, v: Nullable<string>): Store {
    if cached.Null? || cached != v then Commit(st, KeyName(TextKey(t)), StoredText(v)) else st
  }

  /** A string setter (`setUsername`, `setPassword`, `setSignature`, `setTarget`). */
  function SetText(s: Settings, t: StringKey, v: Nullable<string>): (r: Settings)
    ensures Text(r, t) == v
    ensures |r.store.log| == |s.store.log| + (if Text(s, t).Null? || Text(s, t) != v then 1 else 0)
    ensures Text(s, t).Null? || Text(s, t) != v ==> r.store == Commit(s.store, KeyName(TextKey(t)), StoredText(v))
    ensures Text(s, t) == v && v.NonNull? ==> r == s
    ensures OnlyChanged(s, r, TextKey(t))
  {
    s.(texts := (TextListed(t); s.texts[t := v]), store := TextWrite(s.store, t, Text(s, t), v))
  }

  /** `toggleShowSticky`: negates the flag and writes it, without comparing. */
  function ToggleShowSticky(s: Settings): (r: Settings)
    ensures Flag(r, ShowSticky) == !Flag(s, ShowSticky)
    ensures r.store == Commit(s.store, KeyName(FlagKey(ShowSticky)), NonNull(BoolValue(!Flag(s, ShowSticky))))
    ensures OnlyChanged(s, r, FlagKey(ShowSticky))
  {
    var v := !Flag(s, ShowSticky);
    s.(flags := (FlagListed(ShowSticky); s.flags[ShowSticky := v]), store := Commit(s.store, KeyName(FlagKey(ShowSticky)), NonNull(BoolValue(v))))
  }

  /** `getSignature`: the stored signature when it is non-empty, otherwise "Android". */
  function EffectiveSignature(s: Settings): (r: string)
    ensures |r| > 0
    ensures r == DEFAULT_SIGNATURE || Text(s, Signature) == NonNull(r)
  {
    var sig := Text(s, Signature);
    if sig.NonNull? && |sig.value| > 0 then sig.value else DEFAULT_SIGNATURE
  }

  /** The version `isFirstRun` compares with: the package's version code, or 0
      when the lookup threw NameNotFoundException (`Null`). */
  function CurrentVersion(versionCode: Nullable<int>): int {
    match versionCode
    case NonNull(v) => v
    case Null => 0
  }

  /** `isFirstRun`: true, recording the current version, when it differs
      from the last launched one; false and no write otherwise. */
  function IsFirstRun(s: Settings, versionCode: Nullable<int>): (r: (bool, Settings))
    ensures r.0 <==> CurrentVersion(versionCode) != s.lastVersion
    ensures r.1.lastVersion == CurrentVersion(versionCode)
    ensures r.0 ==> r.1.store == Commit(s.store, KeyName(LastLaunchVersion), NonNull(IntValue(CurrentVersion(versionCode))))
    ensures !r.0 ==> r.1 == s
    ensures OnlyChanged(s, r.1, LastLaunchVersion)
  {
    var current := CurrentVersion(versionCode);
    if current == s.lastVersion then
      (false, s)
    else
      (true, s.(lastVersion := current, store := Commit(s.store, KeyName(LastLaunchVersion), NonNull(IntValue(current)))))
  }

  /** The order in which `initSettings` reads the keys. */
  const LOAD_ORDER: seq<Key> := [
    FlagKey(ShowSticky), TextKey(Username), TextKey(Password), FlagKey(AutoLogin),
    FlagKey(LastLoginSuccess), TextKey(Signature), TextKey(Target), FlagKey(UserOnline),
    FlagKey(LoadOriginalImage), FlagKey(NightMode), LastLaunchVersion,
    FlagKey(NotificationMail), FlagKey(NotificationAt), FlagKey(NotificationLike),
    FlagKey(NotificationReply), FlagKey(LaunchHotTopic), FlagKey(PostNavBar)]

  /** The platform getter for `k` returns rather than throwing: the key is
      absent or holds a value of the kind it is read with. */
  predicate Readable(st: Store, k: Key) {
    KindFits(k, Lookup(st, KeyName(k)))
  }

  predicate KindFits(k: Key, v: Nullable<Value>) {
    match v
    case Null => true
    case NonNull(x) =>
      match k
      case FlagKey(_) => x.BoolValue?
      case TextKey(_) => x.StringValue?
      case LastLaunchVersion => x.IntValue?
  }

  /** The first of `keys` whose getter would throw. */
  function FirstUnreadable(st: Store, keys: seq<Key>): (r: Nullable<nat>)
    ensures r.Null? <==> forall i :: 0 <= i < |keys| ==> Readable(st, keys[i])
    ensures r.NonNull? ==> r.value < |keys| && !Readable(st, keys[r.value])
    ensures r.NonNull? ==> forall i :: 0 <= i < r.value ==> Readable(st, keys[i])
  {
    if |keys| == 0 then Null
    else if !Readable(st, keys[0]) then NonNull(0)
    else match FirstUnreadable(st, keys[1..])
      case Null => Null
      case NonNull(i) => NonNull(i + 1)
  }

  /** `getBoolean(key, default)` for a flag that is readable. */
  function LoadFlag(st: Store, f: BoolKey): bool {
    GetBoolean(st, KeyName(FlagKey(f)), FlagDefault(f)).GetOr(FlagDefault(f))
  }

  /** `getString(key, "")` for a string setting that is readable. */
  function LoadText(st: Store, t: StringKey): string {
    GetString(st, KeyName(TextKey(t)), "").GetOr("")
  }

  /** `getInt(LAST_LAUNCH_VERSION, 0)` when it is readable. */
  function LoadVersion(st: Store): int {
    GetInt(st, KeyName(LastLaunchVersion), 0).GetOr(0)
  }

  /** The store after `initSettings` falls back to the marketing name: an
      empty stored signature is replaced through the signature setter. */
  function SignatureFallback(st: Store, marketingName: string): Store {
    var stored := LoadText(st, Signature);
    if |stored| == 0 then TextWrite(st, Signature, NonNull(stored), NonNull(marketingName)) else st
  }

  /** The position of the signature read in LOAD_ORDER. */
  const SIGNATURE_READ: nat := 5

  /** The store once `initSettings` has returned or thrown. The signature
      fallback is committed as soon as the signature has been read, so a
      getter that throws later does not undo it; a getter that throws
      earlier prevents it. */
  function InitStore(st: Store, marketingName: string): (r: Store)
    ensures r == st || r == Commit(st, KeyName(TextKey(Signature)), NonNull(StringValue(marketingName)))
    ensures r != st <==>
      && (forall i :: 0 <= i <= SIGNATURE_READ ==> Readable(st, LOAD_ORDER[i]))
      && LoadText(st, Signature) == "" && marketingName != ""
  {
    var first := FirstUnreadable(st, LOAD_ORDER);
    if first.NonNull? && first.value <= SIGNATURE_READ then st
    else SignatureFallback(st, marketingName)
  }

  /** `initSettings`: reads every key in LOAD_ORDER with its default; the
      first key holding a value of the wrong kind makes its getter throw
      ClassCastException. An empty signature is replaced, through the
      signature setter, by the device's marketing name. The reads after that
      write see the same values as before it, since it touches only the
      signature key (LoadAfterFallback). The store left behind when a getter
      throws is InitStore. */
  function InitSettings(st: Store, marketingName: string): (r: Result<Settings>)
    ensures r.Ok? <==> forall i :: 0 <= i < |LOAD_ORDER| ==> Readable(st, LOAD_ORDER[i])
    ensures r.Throw? ==> var first := FirstUnreadable(st, LOAD_ORDER);
      first.NonNull? && r.exception == ClassCast(KeyName(LOAD_ORDER[first.value]))
    ensures r.Ok? ==> forall t :: Text(r.value, t).NonNull?
    ensures r.Ok? ==> r.value.store == InitStore(st, marketingName)
  {
    match FirstUnreadable(st, LOAD_ORDER)
    case NonNull(i) => Throw(ClassCast(KeyName(LOAD_ORDER[i])))
    case Null =>
      var stored := LoadText(st, Signature);
      var flags: Flags := map f | f in ALL_FLAGS :: LoadFlag(st, f);
      var texts: Texts := map t | t in ALL_TEXTS ::
        if t == Signature && |stored| == 0 then NonNull(marketingName) else NonNull(LoadText(st, t));
      Ok(Settings(flags, texts, LoadVersion(st), SignatureFallback(st, marketingName)))
  }

  /** A store holding nothing but a number where the target string belongs. */
  predicate TargetClash(st: Store) {
    && st.entries.Keys == {KeyName(TextKey(Target))}
    && st.entries[KeyName(TextKey(Target))].IntValue?
  }

  /** In such a store every read before the target's returns. */
  lemma TargetClashFirstUnreadable(st: Store)
    requires TargetClash(st)
    ensures FirstUnreadable(st, LOAD_ORDER) == NonNull(6)
  {
    forall i | 0 <= i <= SIGNATURE_READ
      ensures Readable(st, LOAD_ORDER[i])
    {
      KeyNamesDistinct(LOAD_ORDER[i], TextKey(Target));
    }
    assert !Readable(st, LOAD_ORDER[6]);
  }

  /** A write survives a later throw: with a number stored under
      "forward_target", `initSettings` first commits the marketing name as
      the signature and then throws at the target read. */
  lemma SignatureWriteSurvivesThrow(st: Store, marketingName: string)
    requires TargetClash(st) && marketingName != ""
    ensures InitSettings(st, marketingName) == Throw(ClassCast("forward_target"))
    ensures InitStore(st, marketingName) == Commit(st, "device_signature", NonNull(StringValue(marketingName)))
  {
    TargetClashFirstUnreadable(st);
    assert LOAD_ORDER[6] == TextKey(Target);
    KeyNamesDistinct(TextKey(Signature), TextKey(Target));
    assert Lookup(st, KeyName(TextKey(Signature))).Null?;
  }

  /** Every key the cache uses is readable. */
  ghost predicate WellTyped(st: Store) {
    forall k :: Readable(st, k)
  }

  /** Changing one field and its own key, in a way that keeps that key
      mirrored, keeps the whole cache mirrored. */
  lemma PreservesCoherent(s: Settings, r: Settings, k: Key)
    requires Coherent(s) && OnlyChanged(s, r, k) && Mirrors(r, k)
    ensures Coherent(r)
  {
    forall k' | k' != k
      ensures Mirrors(r, k')
    {
      KeyNamesDistinct(k, k');
      assert Mirrors(s, k');
      assert Lookup(r.store, KeyName(k')) == Lookup(s.store, KeyName(k'));
    }
  }

  /** Write-through: after a boolean setter the store yields the value just
      set, and the whole cache still mirrors the store. */
  lemma SetFlagKeepsCoherent(s: Settings, f: BoolKey, v: bool)
    requires Coherent(s)
    ensures GetBoolean(SetFlag(s, f, v).store, KeyName(FlagKey(f)), FlagDefault(f)) == Ok(v)
    ensures Coherent(SetFlag(s, f, v))
  {
    assert Mirrors(s, FlagKey(f));
    PreservesCoherent(s, SetFlag(s, f, v), FlagKey(f));
  }

  /** Write-through for the string setters; a `null` value leaves the key removed. */
  lemma SetTextKeepsCoherent(s: Settings, t: StringKey, v: Nullable<string>)
    requires Coherent(s)
    ensures v.NonNull? ==> GetString(SetText(s, t, v).store, KeyName(TextKey(t)), "") == Ok(v.value)
    ensures v.Null? ==> Lookup(SetText(s, t, v).store, KeyName(TextKey(t))).Null?
    ensures Coherent(SetText(s, t, v))
  {
    assert Mirrors(s, TextKey(t));
    PreservesCoherent(s, SetText(s, t, v), TextKey(t));
  }

  /** `toggleShowSticky` is the flag setter called with the negated value:
      since that value always differs, it always writes. */
  lemma ToggleIsUnconditionalSet(s: Settings)
    ensures ToggleShowSticky(s) == SetFlag(s, ShowSticky, !Flag(s, ShowSticky))
    ensures |ToggleShowSticky(s).store.log| == |s.store.log| + 1
  {
  }

  /** Two toggles restore every cached field, write twice, and keep the cache mirrored. */
  lemma ToggleTwice(s: Settings)
    ensures var r := ToggleShowSticky(ToggleShowSticky(s));
      && r.flags == s.flags && r.texts == s.texts && r.lastVersion == s.lastVersion
      && |r.store.log| == |s.store.log| + 2
      && (Coherent(s) ==> Coherent(r))
  {
    var r1 := ToggleShowSticky(s);
    ToggleIsUnconditionalSet(s);
    ToggleIsUnconditionalSet(r1);
    if Coherent(s) {
      SetFlagKeepsCoherent(s, ShowSticky, !Flag(s, ShowSticky));
      SetFlagKeepsCoherent(r1, ShowSticky, !Flag(r1, ShowSticky));
    }
    FlagListed(ShowSticky);
  }

  /** `isFirstRun` keeps the cache mirrored. */
  lemma IsFirstRunKeepsCoherent(s: Settings, versionCode: Nullable<int>)
    requires Coherent(s)
    ensures Coherent(IsFirstRun(s, versionCode).1)
  {
    assert Mirrors(s, LastLaunchVersion);
    PreservesCoherent(s, IsFirstRun(s, versionCode).1, LastLaunchVersion);
  }

  /** Asked twice with the same version, `isFirstRun` answers false the
      second time and changes nothing. */
  lemma FirstRunOnlyOnce(s: Settings, versionCode: Nullable<int>)
    ensures var (_, s1) := IsFirstRun(s, versionCode);
      IsFirstRun(s1, versionCode) == (false, s1)
  {
  }

  /** What `getSignature` answers after `setSignature(v)`. */
  lemma SignatureAfterSet(s: Settings, v: Nullable<string>)
    ensures EffectiveSignature(SetText(s, Signature, v)) ==
      if v.NonNull? && v.value != "" then v.value else DEFAULT_SIGNATURE
  {
  }


  /** LOAD_ORDER reads every key the cache uses. */
  lemma LoadOrderComplete(k: Key)
    ensures k in LOAD_ORDER
  {
    match k
    case FlagKey(f) => {
      match f
      case ShowSticky => assert LOAD_ORDER[0] == k;
      case AutoLogin => assert LOAD_ORDER[3] == k;
      case LastLoginSuccess => assert LOAD_ORDER[4] == k;
      case UserOnline => assert LOAD_ORDER[7] == k;
      case LoadOriginalImage => assert LOAD_ORDER[8] == k;
      case NightMode => assert LOAD_ORDER[9] == k;
      case NotificationMail => assert LOAD_ORDER[11] == k;
      case NotificationAt => assert LOAD_ORDER[12] == k;
      case NotificationLike => assert LOAD_ORDER[13] == k;
      case NotificationReply => assert LOAD_ORDER[14] == k;
      case LaunchHotTopic => assert LOAD_ORDER[15] == k;
      case PostNavBar => assert LOAD_ORDER[16] == k;
    }
    case TextKey(t) => {
      match t
      case Username => assert LOAD_ORDER[1] == k;
      case Password => assert LOAD_ORDER[2] == k;
      case Signature => assert LOAD_ORDER[5] == k;
      case Target => assert LOAD_ORDER[6] == k;
    }
    case LastLaunchVersion => assert LOAD_ORDER[10] == k;
  }

  /** `initSettings` succeeds exactly when every key it reads is absent or of the right kind. */
  lemma InitSucceedsIffWellTyped(st: Store, marketingName: string)
    ensures InitSettings(st, marketingName).Ok? <==> WellTyped(st)
  {
    if InitSettings(st, marketingName).Ok? {
      forall k
        ensures Readable(st, k)
      {
        LoadOrderComplete(k);
      }
    }
  }

  /** The signature fallback writes only the signature key, so every read
      after it sees what it would have seen before it. */
  lemma LoadAfterFallback(st: Store, marketingName: string, k: Key)
    requires k != TextKey(Signature)
    ensures Lookup(SignatureFallback(st, marketingName), KeyName(k)) == Lookup(st, KeyName(k))
  {
    KeyNamesDistinct(k, TextKey(Signature));
  }

  /** The signature `initSettings` settles on, and the one write it may make. */
  lemma InitSignature(st: Store, marketingName: string)
    requires WellTyped(st)
    ensures InitSettings(st, marketingName).Ok?
    ensures var stored := LoadText(st, Signature);
      var r := InitSettings(st, marketingName).value;
      && Text(r, Signature) == NonNull(if stored == "" then marketingName else stored)
      && |r.store.log| == |st.log| + (if stored == "" && marketingName != "" then 1 else 0)
      && (stored == "" && marketingName != "" ==>
            r.store == Commit(st, KeyName(TextKey(Signature)), NonNull(StringValue(marketingName))))
      && (stored != "" || marketingName == "" ==> r.store == st)
  {
    InitSucceedsIffWellTyped(st, marketingName);
    TextListed(Signature);
  }

  /** Loading from an empty store gives the defaults `initSettings` passes
      to each getter: every flag true except sticky topics, last-login-success
      and online; empty strings; version 0; and the marketing name as the
      signature, written to the store unless it is empty. */
  lemma InitDefaults(log: seq<Edit>, marketingName: string)
    ensures var r := InitSettings(Store(map[], log), marketingName);
      && r.Ok?
      && !Flag(r.value, ShowSticky) && !Flag(r.value, LastLoginSuccess) && !Flag(r.value, UserOnline)
      && Flag(r.value, AutoLogin) && Flag(r.value, LoadOriginalImage) && Flag(r.value, NightMode)
      && Flag(r.value, NotificationMail) && Flag(r.value, NotificationAt)
      && Flag(r.value, NotificationLike) && Flag(r.value, NotificationReply)
      && Flag(r.value, LaunchHotTopic) && Flag(r.value, PostNavBar)
      && Text(r.value, Username) == NonNull("") && Text(r.value, Password) == NonNull("")
      && Text(r.value, Target) == NonNull("")
      && Text(r.value, Signature) == NonNull(marketingName)
      && r.value.lastVersion == 0
      && |r.value.store.log| == |log| + (if marketingName == "" then 0 else 1)
  {
    var st := Store(map[], log);
    assert forall k :: Readable(st, k);
    InitSignature(st, marketingName);
    var r := InitSettings(st, marketingName).value;
    forall f
      ensures Flag(r, f) == FlagDefault(f)
    {
      FlagListed(f);
    }
    forall t
      ensures t != Signature ==> Text(r, t) == NonNull("")
    {
      TextListed(t);
    }
  }

  /** Right after loading, every field mirrors the store. */
  lemma InitCoherent(st: Store, marketingName: string)
    requires WellTyped(st)
    ensures InitSettings(st, marketingName).Ok? && Coherent(InitSettings(st, marketingName).value)
  {
    InitSucceedsIffWellTyped(st, marketingName);
    var r := InitSettings(st, marketingName).value;
    forall k
      ensures Mirrors(r, k)
    {
      assert Readable(st, k);
      if k == TextKey(Signature) {
        InitSignature(st, marketingName);
      } else {
        LoadAfterFallback(st, marketingName, k);
        match k
        case FlagKey(f) => FlagListed(f);
        case TextKey(t) => TextListed(t);
        case LastLaunchVersion =>
      }
    }
  }

  /** A mirrored flag loads back as its cached value. */
  lemma MirroredFlagLoads(s: Settings, f: BoolKey)
    requires Mirrors(s, FlagKey(f))
    ensures Readable(s.store, FlagKey(f)) && LoadFlag(s.store, f) == Flag(s, f)
  {
  }

  /** A mirrored non-null string loads back as its cached value. */
  lemma MirroredTextLoads(s: Settings, t: StringKey)
    requires Mirrors(s, TextKey(t)) && Text(s, t).NonNull?
    ensures Readable(s.store, TextKey(t)) && LoadText(s.store, t) == Text(s, t).value
  {
  }

  /** Persisted then reloaded: a mirrored cache whose strings are non-null
      and whose signature is non-empty is exactly what `initSettings` loads
      back from its store, without writing. */
  lemma InitReloads(s: Settings, marketingName: string)
    requires Coherent(s)
    requires forall t :: Text(s, t).NonNull?
    requires Text(s, Signature).value != ""
    ensures InitSettings(s.store, marketingName) == Ok(s)
  {
    CoherentIsWellTyped(s);
    InitSucceedsIffWellTyped(s.store, marketingName);
    ReloadFlags(s, marketingName);
    ReloadTexts(s, marketingName);
    MirroredTextLoads(s, Signature);
    assert Mirrors(s, LastLaunchVersion);
  }

  /** A mirrored store holds every key with a value of its kind, or not at all. */
  lemma CoherentIsWellTyped(s: Settings)
    requires Coherent(s)
    ensures WellTyped(s.store)
  {
    forall k
      ensures Readable(s.store, k)
    {
      assert Mirrors(s, k);
    }
  }

  /** Reloading a mirrored store gives back the cached flags. */
  lemma ReloadFlags(s: Settings, marketingName: string)
    requires Coherent(s)
    ensures InitSettings(s.store, marketingName).Ok?
    ensures InitSettings(s.store, marketingName).value.flags == s.flags
  {
    CoherentIsWellTyped(s);
    InitSucceedsIffWellTyped(s.store, marketingName);
    var r := InitSettings(s.store, marketingName).value;
    forall f | f in ALL_FLAGS
      ensures r.flags[f] == s.flags[f]
    {
      MirroredFlagLoads(s, f);
    }
  }

  /** Reloading a mirrored store gives back the cached non-null strings. */
  lemma ReloadTexts(s: Settings, marketingName: string)
    requires Coherent(s)
    requires forall t :: Text(s, t).NonNull?
    requires Text(s, Signature).value != ""
    ensures InitSettings(s.store, marketingName).Ok?
    ensures InitSettings(s.store, marketingName).value.texts == s.texts
  {
    CoherentIsWellTyped(s);
    InitSucceedsIffWellTyped(s.store, marketingName);
    var r := InitSettings(s.store, marketingName).value;
    MirroredTextLoads(s, Signature);
    forall t | t in ALL_TEXTS
      ensures r.texts[t] == s.texts[t]
    {
      MirroredTextLoads(s, t);
    }
  }
}
