/** The browser side of the presence protocol (components/OfficeScene.tsx):
    the `ws.onmessage` reducer over the shown avatars, the user count and the
    chat list; the Enter/Escape chat machine; navigation-key gating while the
    chat is open; the position-send throttle; and the settings save handler. */
module OfficeScene {
  import opened Wrappers
  import opened Js
  import opened AvatarTypes
  import opened Avatar
  import opened Wire
  import SettingsPanel

  // ---------------------------------------------------------------------------
  // The message reducer

  /** What the reducer does to the three.js scene. */
  datatype Effect =
    | AddAvatar(model: AvatarModel)
    | RemoveAvatar(id: string)
    | MoveAvatar(id: string, position: Option<Vec3>, rotation: Option<Vec3>)  // `updateAvatar`

  /** `avatarsRef` (each shown avatar's `userData`, by id), `userCount` and
      `chatMessages`. */
  datatype Client = Client(avatars: map<string, AvatarData>, userCount: int, chat: seq<ChatMessage>)

  const InitialClient: Client := Client(map[], 0, [])

  /** Every shown avatar is stored under its own id. */
  predicate KeyedById(avatars: map<string, AvatarData>) {
    forall k :: k in avatars ==> avatars[k].id == k
  }

  /** The ids a `users` list names. */
  function IdsIn(list: seq<AvatarData>): set<string> {
    if list == [] then {} else {list[0].id} + IdsIn(list[1..])
  }

  /** The ids a prefix adds, one listing at a time. */
  lemma IdsInPrefix(list: seq<AvatarData>, n: nat)
    requires 0 < n <= |list|
    ensures IdsIn(list[..n]) == {list[0].id} + IdsIn(list[1..][..n - 1])
  {
    assert list[..n][1..] == list[1..][..n - 1];
  }

  lemma IdsInShifted(list: seq<AvatarData>, stop: Option<nat>)
    requires list != [] && (stop.Some? ==> stop.value < |list| - 1)
    ensures stop.Some? ==> IdsIn(list[..stop.value + 1]) == {list[0].id} + IdsIn(list[1..][..stop.value])
  {
    if stop.Some? {
      IdsInPrefix(list, stop.value + 1);
    }
  }

  /** Where a `forEach` stopped: `None` when it ran to the end, otherwise the
      index of the listing whose `createAvatar` threw. */
  function Shifted(stop: Option<nat>): Option<nat> {
    if stop.Some? then Some(stop.value + 1) else None
  }

  /** The `forEach` of the `users` case: add each listed user not shown yet
      (a user listed twice is added once, from its first listing), until a
      listing without a pose makes `createAvatar` throw. Everything added
      before the throw stays; nothing after it is reached. */
  function AddMissing(avatars: map<string, AvatarData>, list: seq<AvatarData>)
    : (r: (map<string, AvatarData>, seq<Effect>, Option<nat>))
    ensures avatars.Keys <= r.0.Keys
    ensures forall k :: k in avatars ==> r.0[k] == avatars[k]
    ensures forall k :: k in r.0 && k !in avatars ==> r.0[k] in list && r.0[k].id == k && Renderable(r.0[k])
    ensures r.2.Some? ==> r.2.value < |list|
    decreases list
  {
    if list == [] then (avatars, [], None)
    else
      var u := list[0];
      if u.id in avatars then
        var rest := AddMissing(avatars, list[1..]);
        (rest.0, rest.1, Shifted(rest.2))
      else match CreateAvatar(u)
        case None => (avatars, [], Some(0))
        case Some(m) =>
          var rest := AddMissing(avatars[u.id := u], list[1..]);
          assert forall k :: k in rest.0 && k !in avatars ==> k == u.id || k !in avatars[u.id := u];
          (rest.0, [AddAvatar(m)] + rest.1, Shifted(rest.2))
  }

  /** One listing of the `forEach`, stated over key sets: what the rest of the
      list shows from `restKeys` on, the whole list shows from `keys` on. */
  lemma ShowsStep(keys: set<string>, restKeys: set<string>, list: seq<AvatarData>, shown: set<string>,
                  stop: Option<nat>)
    requires list != [] && restKeys == keys + {list[0].id}
    requires stop.Some? ==> stop.value < |list| - 1
    requires stop.None? ==> shown == restKeys + IdsIn(list[1..])
    requires stop.Some? ==>
               && shown == restKeys + IdsIn(list[1..][..stop.value])
               && list[1..][stop.value].id !in shown && !Renderable(list[1..][stop.value])
    ensures Shifted(stop).None? ==> shown == keys + IdsIn(list)
    ensures Shifted(stop).Some? ==>
              && shown == keys + IdsIn(list[..Shifted(stop).value])
              && list[Shifted(stop).value].id !in shown && !Renderable(list[Shifted(stop).value])
  {
    assert IdsIn(list) == {list[0].id} + IdsIn(list[1..]);
    IdsInShifted(list, stop);
    if stop.Some? {
      assert list[1..][stop.value] == list[stop.value + 1];
    }
  }

  /** Which ids the `forEach` shows: all listed ones when it runs through;
      when it throws, those listed before the throwing listing, which is
      itself not shown and has no pose. */
  lemma {:induction false} AddMissingShows(avatars: map<string, AvatarData>, list: seq<AvatarData>)
    ensures var r := AddMissing(avatars, list);
            && (r.2.None? ==> r.0.Keys == avatars.Keys + IdsIn(list))
            && (r.2.Some? ==>
                  && r.0.Keys == avatars.Keys + IdsIn(list[..r.2.value])
                  && list[r.2.value].id !in r.0 && !Renderable(list[r.2.value]))
    decreases list
  {
    if list != [] {
      var u := list[0];
      if u.id in avatars {
        var rest := AddMissing(avatars, list[1..]);
        AddMissingShows(avatars, list[1..]);
        ShowsStep(avatars.Keys, avatars.Keys, list, rest.0.Keys, rest.2);
      } else if Renderable(u) {
        var a' := avatars[u.id := u];
        var rest := AddMissing(a', list[1..]);
        AddMissingShows(a', list[1..]);
        ShowsStep(avatars.Keys, a'.Keys, list, rest.0.Keys, rest.2);
      } else {
        assert list[..0] == [];
      }
    }
  }

  /** One avatar is created per id newly shown. */
  lemma {:induction false} AddMissingCreatesOnePerNewId(avatars: map<string, AvatarData>, list: seq<AvatarData>)
    ensures var r := AddMissing(avatars, list);
            |r.1| == |r.0.Keys| - |avatars.Keys|
    decreases list
  {
    if list != [] {
      var u := list[0];
      if u.id in avatars {
        AddMissingCreatesOnePerNewId(avatars, list[1..]);
      } else if Renderable(u) {
        var a' := avatars[u.id := u];
        AddMissingCreatesOnePerNewId(a', list[1..]);
        assert a'.Keys == avatars.Keys + {u.id};
        assert |a'.Keys| == |avatars.Keys| + 1;
      }
    }
  }

  /** The `forEach` throws no later than the first listing of an id not
      shown yet whose pose is missing. */
  lemma {:induction false} AddMissingStopsAtUnrenderable(avatars: map<string, AvatarData>, list: seq<AvatarData>,
                                                         i: nat)
    requires i < |list| && list[i].id !in avatars && list[i].id !in IdsIn(list[..i]) && !Renderable(list[i])
    ensures AddMissing(avatars, list).2.Some? && AddMissing(avatars, list).2.value <= i
    decreases list
  {
    if i > 0 {
      var u := list[0];
      IdsInPrefix(list, i);
      assert list[1..][i - 1] == list[i];
      if u.id in avatars {
        AddMissingStopsAtUnrenderable(avatars, list[1..], i - 1);
      } else if Renderable(u) {
        AddMissingStopsAtUnrenderable(avatars[u.id := u], list[1..], i - 1);
      }
    }
  }

  function Max(a: int, b: int): int {
    if a >= b then a else b
  }

  /** `ws.onmessage`, returning the new client state and the scene edits. */
  function OnMessage(st: Client, msg: ServerMsg): (r: (Client, seq<Effect>))
  {
    match msg
    case Users(list) =>
      var (avatars, effects, stop) := AddMissing(st.avatars, list);
      if stop.Some? then (st.(avatars := avatars), effects)     // `setUserCount` is never reached
      else (st.(avatars := avatars, userCount := |list| + 1), effects)
    case UserJoined(u) =>
      if u.id in st.avatars then (st, [])
      else (match CreateAvatar(u)
        case None => (st, [])
        case Some(m) => (st.(avatars := st.avatars[u.id := u], userCount := st.userCount + 1), [AddAvatar(m)]))
    case UserLeft(id) =>
      if id in st.avatars then
        (st.(avatars := st.avatars - {id}, userCount := Max(0, st.userCount - 1)), [RemoveAvatar(id)])
      else (st, [])
    case PositionUpdate(id, position, rotation) =>
      if id in st.avatars then (st, [MoveAvatar(id, position, rotation)]) else (st, [])
    case AvatarUpdate(id, customization) =>
      if id in st.avatars then
        var data := st.avatars[id].(customization := customization);
        (match CreateAvatar(data)
         case None => (st, [RemoveAvatar(id)])    // the old mesh is already gone; `avatarsRef` keeps it
         case Some(m) => (st.(avatars := st.avatars[id := data]), [RemoveAvatar(id), AddAvatar(m)]))
      else (st, [])
    case ChatHistory(messages) => (st.(chat := messages), [])
    case ChatPosted(m) => (st.(chat := st.chat + [m]), [])
    case OtherMsg(_) => (st, [])
  }

  /** `users`: only ids not already shown get an avatar and shown ones are
      left as they are. When the `forEach` runs through, every listed id is
      shown and the count becomes the list's length plus one; when a listing
      without a pose makes it throw, the ids listed before it are shown, that
      one is not, and the count is left alone. */
  lemma UsersAddsOnlyNew(st: Client, list: seq<AvatarData>)
    ensures var (r, effects) := OnMessage(st, Users(list));
            && (forall k :: k in st.avatars ==> k in r.avatars && r.avatars[k] == st.avatars[k])
            && |effects| == |r.avatars.Keys| - |st.avatars.Keys|
            && r.chat == st.chat
            && ((r.avatars.Keys == st.avatars.Keys + IdsIn(list) && r.userCount == |list| + 1) ||
                (exists i :: 0 <= i < |list| && r.avatars.Keys == st.avatars.Keys + IdsIn(list[..i]) &&
                             list[i].id !in r.avatars && !Renderable(list[i]) && r.userCount == st.userCount))
  {
    AddMissingCreatesOnePerNewId(st.avatars, list);
    AddMissingShows(st.avatars, list);
  }

  /** `users` throws, leaving the count alone, exactly when some id not shown
      yet is first listed without a pose; when every such listing has one,
      every listed id ends up shown. */
  lemma UsersCountedUnlessAPoseIsMissing(st: Client, list: seq<AvatarData>)
    ensures var r := OnMessage(st, Users(list)).0;
            (forall u :: u in list && u.id !in st.avatars ==> Renderable(u)) ==>
              r.avatars.Keys == st.avatars.Keys + IdsIn(list) && r.userCount == |list| + 1
    ensures forall i :: 0 <= i < |list| && list[i].id !in st.avatars && list[i].id !in IdsIn(list[..i]) &&
                        !Renderable(list[i]) ==>
              OnMessage(st, Users(list)).0.userCount == st.userCount
  {
    var stop := AddMissing(st.avatars, list).2;
    AddMissingShows(st.avatars, list);
    if stop.Some? {
      assert list[stop.value] in list;
    }
    forall i | 0 <= i < |list| && list[i].id !in st.avatars && list[i].id !in IdsIn(list[..i]) &&
               !Renderable(list[i])
      ensures OnMessage(st, Users(list)).0.userCount == st.userCount
    {
      AddMissingStopsAtUnrenderable(st.avatars, list, i);
    }
  }

  /** `user-joined` adds and counts a new id with a pose; an id already shown,
      or a record without a pose (on which `createAvatar` throws before the
      set and the count), leaves everything as it was. */
  lemma UserJoinedAddsOnce(st: Client, u: AvatarData)
    ensures u.id in st.avatars || !Renderable(u) ==> OnMessage(st, UserJoined(u)) == (st, [])
    ensures u.id !in st.avatars && Renderable(u) ==>
              var (r, effects) := OnMessage(st, UserJoined(u));
              && r.avatars == st.avatars[u.id := u] && r.userCount == st.userCount + 1
              && effects == [AddAvatar(CreateAvatar(u).value)]
    ensures OnMessage(OnMessage(st, UserJoined(u)).0, UserJoined(u)).0 == OnMessage(st, UserJoined(u)).0
  {
  }

  /** `user-left` removes and uncounts a shown id, never taking the count
      below zero; an unknown id is a no-op. */
  lemma UserLeftRemovesOnce(st: Client, id: string)
    ensures id !in st.avatars ==> OnMessage(st, UserLeft(id)) == (st, [])
    ensures id in st.avatars ==>
              var r := OnMessage(st, UserLeft(id)).0;
              && id !in r.avatars && r.avatars.Keys == st.avatars.Keys - {id}
              && r.userCount == (if st.userCount >= 1 then st.userCount - 1 else 0)
    ensures st.userCount >= 0 ==> OnMessage(st, UserLeft(id)).0.userCount >= 0
  {
  }

  /** `position` and `avatar-update` for ids not shown do nothing. */
  lemma UpdatesForUnknownIdsIgnored(st: Client, id: string, p: Option<Vec3>, q: Option<Vec3>,
                                    c: Option<Customization>)
    requires id !in st.avatars
    ensures OnMessage(st, PositionUpdate(id, p, q)) == (st, [])
    ensures OnMessage(st, AvatarUpdate(id, c)) == (st, [])
  {
  }

  /** `position` only moves the mesh: the stored `userData` keeps the pose it
      was created with. */
  lemma PositionLeavesUserData(st: Client, id: string, p: Option<Vec3>, q: Option<Vec3>)
    ensures OnMessage(st, PositionUpdate(id, p, q)).0 == st
  {
  }

  /** `avatar-update` rebuilds the avatar from its stored id, name, image,
      position and rotation with only the customization replaced. Were the
      stored pose missing, `createAvatar` would throw after the old mesh left
      the scene, and `avatarsRef` would keep the old record. */
  lemma AvatarUpdateReplacesOnlyCustomization(st: Client, id: string, c: Option<Customization>)
    requires KeyedById(st.avatars) && id in st.avatars
    ensures var (r, effects) := OnMessage(st, AvatarUpdate(id, c));
            var before := st.avatars[id];
            && r.avatars.Keys == st.avatars.Keys
            && (forall k :: k in st.avatars && k != id ==> r.avatars[k] == st.avatars[k])
            && (Renderable(before) ==>
                  && r.avatars[id].id == before.id == id
                  && r.avatars[id].name == before.name && r.avatars[id].image == before.image
                  && r.avatars[id].position == before.position && r.avatars[id].rotation == before.rotation
                  && r.avatars[id].customization == c
                  && effects == [RemoveAvatar(id), AddAvatar(CreateAvatar(r.avatars[id]).value)])
            && (!Renderable(before) ==> r == st && effects == [RemoveAvatar(id)])
  {
  }

  lemma OnMessageKeepsKeyedById(st: Client, msg: ServerMsg)
    requires KeyedById(st.avatars)
    ensures KeyedById(OnMessage(st, msg).0.avatars)
  {
  }

  /** Every shown avatar's record has a pose. */
  predicate AllRenderable(avatars: map<string, AvatarData>) {
    forall k :: k in avatars ==> Renderable(avatars[k])
  }

  /** Only records `createAvatar` accepted are stored, so a shown avatar
      always has a pose and `avatar-update` never reaches its throwing path. */
  lemma OnMessageKeepsAvatarsRenderable(st: Client, msg: ServerMsg)
    requires AllRenderable(st.avatars)
    ensures AllRenderable(OnMessage(st, msg).0.avatars)
  {
  }

  // ---------------------------------------------------------------------------
  // Chat list

  const ShownMessages: nat := 10

  /** `chatMessages.slice(-10)`. */
  function Displayed(chat: seq<ChatMessage>): (r: seq<ChatMessage>)
    ensures |r| == if |chat| < ShownMessages then |chat| else ShownMessages
    ensures r == chat[|chat| - |r|..]
  {
    if |chat| <= ShownMessages then chat else chat[|chat| - ShownMessages..]
  }

  /** `chat-history` replaces the list; `chat` appends one message, which is
      then the last one shown. */
  lemma ChatListUpdates(st: Client, history: seq<ChatMessage>, m: ChatMessage)
    ensures OnMessage(st, ChatHistory(history)).0.chat == history
    ensures var after := OnMessage(st, ChatPosted(m)).0.chat;
            && after == st.chat + [m]
            && Displayed(after)[|Displayed(after)| - 1] == m
  {
  }

  // ---------------------------------------------------------------------------
  // The chat key machine

  datatype ChatUi = ChatUi(visible: bool, input: string, settingsOpen: bool)

  /** `handleChatKey`: the next UI state and the text sent, if any. */
  function HandleChatKey(ui: ChatUi, key: string, socketOpen: bool): (r: (ChatUi, Option<string>))
    ensures r.0.settingsOpen == ui.settingsOpen
    ensures ui.settingsOpen ==> r == (ui, None)
    ensures r.1.Some? <==> !ui.settingsOpen && key == "Enter" && ui.visible && Trim(ui.input) != "" && socketOpen
    ensures r.1.Some? ==> r.1.value == Trim(ui.input) && r.0 == ui.(input := "")
    ensures key != "Enter" && key != "Escape" ==> r == (ui, None)
  {
    if ui.settingsOpen then (ui, None)
    else if key == "Enter" then
      if !ui.visible then (ui.(visible := true), None)
      else if Trim(ui.input) == "" then (ui.(visible := false), None)
      else if socketOpen then (ui.(input := ""), Some(Trim(ui.input)))
      else (ui, None)
    else if key == "Escape" && ui.visible then (ui.(visible := false, input := ""), None)
    else (ui, None)
  }

  /** The transitions one by one. */
  lemma ChatKeyTransitions(ui: ChatUi, socketOpen: bool)
    requires !ui.settingsOpen
    ensures !ui.visible ==> HandleChatKey(ui, "Enter", socketOpen) == (ui.(visible := true), None)
    ensures ui.visible && AllWhitespace(ui.input) ==>
              HandleChatKey(ui, "Enter", socketOpen) == (ui.(visible := false), None)
    ensures ui.visible && !AllWhitespace(ui.input) && !socketOpen ==>
              HandleChatKey(ui, "Enter", socketOpen) == (ui, None)
    ensures ui.visible ==> HandleChatKey(ui, "Escape", socketOpen) == (ui.(visible := false, input := ""), None)
    ensures !ui.visible ==> HandleChatKey(ui, "Escape", socketOpen) == (ui, None)
  {
    TrimEmptyIffAllWhitespace(ui.input);
  }

  /** A sent message is never blank. */
  lemma SentTextIsTrimmedAndNonBlank(ui: ChatUi, key: string, socketOpen: bool)
    ensures var sent := HandleChatKey(ui, key, socketOpen).1;
            sent.Some? ==> sent.value != "" && !IsWhitespace(sent.value[0]) &&
                           !IsWhitespace(sent.value[|sent.value| - 1])
  {
  }

  /** The chat input's own `onKeyDown`, which only exists while the chat is
      shown and stops the key from reaching the window handler. */
  function HandleInputKey(ui: ChatUi, key: string, socketOpen: bool): (r: (ChatUi, Option<string>))
    requires ui.visible
    ensures r.0.settingsOpen == ui.settingsOpen
    ensures r.1.Some? <==> key == "Enter" && Trim(ui.input) != "" && socketOpen
  {
    if key == "Enter" then
      if Trim(ui.input) == "" then (ui.(visible := false), None)
      else if socketOpen then (ui.(input := ""), Some(Trim(ui.input)))
      else (ui, None)
    else if key == "Escape" then (ui.(visible := false, input := ""), None)
    else (ui, None)
  }

  /** With the settings panel closed, the input's handler and the window's
      handler do the same; with it open, only the input's handler still acts. */
  lemma InputKeyAgreesWithWindowKey(ui: ChatUi, key: string, socketOpen: bool)
    requires ui.visible
    ensures !ui.settingsOpen ==> HandleInputKey(ui, key, socketOpen) == HandleChatKey(ui, key, socketOpen)
    ensures ui.settingsOpen && key == "Escape" ==>
              HandleChatKey(ui, key, socketOpen) == (ui, None) &&
              HandleInputKey(ui, key, socketOpen).0 == ui.(visible := false, input := "")
  {
  }

  // ---------------------------------------------------------------------------
  // Navigation keys

  const NavigationKeys: seq<string> :=
    ["w", "a", "s", "d", "arrowup", "arrowdown", "arrowleft", "arrowright"]

  /** `keysRef` and `chatVisibleRef`. */
  datatype Controls = Controls(keys: map<string, bool>, chatVisible: bool)

  predicate Pressed(keys: map<string, bool>, k: string) {
    k in keys && keys[k]
  }

  /** `handleKeyDown` (`down`) and `handleKeyUp` (not `down`) for the key
      named `key`. */
  function OnKey(ctl: Controls, key: string, down: bool): (r: Controls)
    ensures r.chatVisible == ctl.chatVisible
    ensures ctl.chatVisible && ToLowerCase(key) in NavigationKeys ==> r == ctl
    ensures !(ctl.chatVisible && ToLowerCase(key) in NavigationKeys) ==>
              r.keys == ctl.keys[ToLowerCase(key) := down]
  {
    var k := ToLowerCase(key);
    if ctl.chatVisible && k in NavigationKeys then ctl
    else ctl.(keys := ctl.keys[k := down])
  }

  /** The effect on `chatVisible`: sync the ref and, on opening, release
      all eight navigation keys. */
  function SyncChatVisible(ctl: Controls, visible: bool): (r: Controls)
    ensures r.chatVisible == visible
    ensures visible ==> forall k :: k in NavigationKeys ==> k in r.keys && !r.keys[k]
    ensures visible ==> forall k :: k in ctl.keys && k !in NavigationKeys ==> k in r.keys && r.keys[k] == ctl.keys[k]
    ensures !visible ==> r.keys == ctl.keys
  {
    if visible then
      ctl.(chatVisible := true,
           keys := ctl.keys["w" := false]["a" := false]["s" := false]["d" := false]
                           ["arrowup" := false]["arrowdown" := false]
                           ["arrowleft" := false]["arrowright" := false])
    else ctl.(chatVisible := false)
  }

  /** `moved` in `animate`: some navigation key is held. */
  predicate Moved(keys: map<string, bool>) {
    exists k :: k in NavigationKeys && Pressed(keys, k)
  }

  // ---------------------------------------------------------------------------
  // Position throttle

  const ThrottleMillis: int := 60

  /** One frame of `animate`: whether a `position` frame goes out, and the
      new `lastPositionUpdate`. */
  function PositionTick(keys: map<string, bool>, socketOpen: bool, now: int, last: int): (r: (bool, int))
    ensures r.0 <==> Moved(keys) && socketOpen && now - last > ThrottleMillis
    ensures r.1 == if r.0 then now else last
  {
    if Moved(keys) && socketOpen && now - last > ThrottleMillis then (true, now) else (false, last)
  }

  /** Two sends are always more than 60 ms apart. */
  lemma ThrottleSpacing(keys: map<string, bool>, keys': map<string, bool>, open: bool, open': bool,
                        t1: int, t2: int, last: int)
    requires PositionTick(keys, open, t1, last).0
    requires PositionTick(keys', open', t2, PositionTick(keys, open, t1, last).1).0
    ensures t2 - t1 > ThrottleMillis
  {
  }

  /** A keyboard event while the chat is open. */
  datatype KeyEvent = KeyEvent(key: string, down: bool)

  function OnKeys(ctl: Controls, evs: seq<KeyEvent>): Controls
    decreases evs
  {
    if evs == [] then ctl else OnKeys(OnKey(ctl, evs[0].key, evs[0].down), evs[1..])
  }

  /** Once the chat has opened, no sequence of keyboard presses or releases
      makes the avatar move, so keyboard input alone sends no `position`
      frame until it closes. */
  lemma {:induction false} ChatOpenFreezesMovement(ctl: Controls, evs: seq<KeyEvent>, open: bool,
                                                   now: int, last: int)
    ensures var c := OnKeys(SyncChatVisible(ctl, true), evs);
            !Moved(c.keys) && !PositionTick(c.keys, open, now, last).0
  {
    NavKeysStayReleased(SyncChatVisible(ctl, true), evs);
  }

  lemma {:induction false} NavKeysStayReleased(ctl: Controls, evs: seq<KeyEvent>)
    requires ctl.chatVisible
    requires forall k :: k in NavigationKeys ==> !Pressed(ctl.keys, k)
    ensures forall k :: k in NavigationKeys ==> !Pressed(OnKeys(ctl, evs).keys, k)
    ensures OnKeys(ctl, evs).chatVisible
    decreases evs
  {
    if evs != [] {
      var next := OnKey(ctl, evs[0].key, evs[0].down);
      assert forall k :: k in NavigationKeys ==> !Pressed(next.keys, k);
      NavKeysStayReleased(next, evs[1..]);
    }
  }

  // ---------------------------------------------------------------------------
  // On-screen navigation buttons

  /** The four on-screen arrow buttons and the keys they hold down. */
  datatype NavButton = Forward | Left | Back | Right {
    function Key(): string {
      match this
      case Forward => "w"
      case Left => "a"
      case Back => "s"
      case Right => "d"
    }
  }

  /** A button's touch or mouse handlers write `keysRef` directly: pressing
      holds its key down, releasing or leaving lets it go, and nothing looks
      at `chatVisibleRef`. */
  function OnButton(ctl: Controls, b: NavButton, down: bool): (r: Controls)
    ensures r.chatVisible == ctl.chatVisible
    ensures b.Key() in NavigationKeys && r.keys == ctl.keys[b.Key() := down]
  {
    ctl.(keys := ctl.keys[b.Key() := down])
  }

  /** Keyboard events and button presses or releases, as they arrive. */
  datatype InputEvent = Keyboard(ev: KeyEvent) | Button(button: NavButton, down: bool)

  function OnInputs(ctl: Controls, evs: seq<InputEvent>): Controls
    decreases evs
  {
    if evs == [] then ctl
    else
      var next := match evs[0]
        case Keyboard(ev) => OnKey(ctl, ev.key, ev.down)
        case Button(b, down) => OnButton(ctl, b, down);
      OnInputs(next, evs[1..])
  }

  /** The buttons are not gated: pressing one while the chat is open makes the
      avatar move, and the next frame past the throttle sends its position. */
  lemma ButtonMovesWhileChatOpen(ctl: Controls, b: NavButton, open: bool, now: int, last: int)
    requires ctl.chatVisible
    ensures var c := OnButton(ctl, b, true);
            && c.chatVisible && Moved(c.keys)
            && (open && now - last > ThrottleMillis ==> PositionTick(c.keys, open, now, last).0)
  {
    assert b.Key() in NavigationKeys;
  }

  /** While the chat is open, the avatar can only be moving after a button
      was pressed: keyboard input never holds a navigation key down. */
  lemma {:induction false} OnlyButtonsMoveWhileChatOpen(ctl: Controls, evs: seq<InputEvent>)
    requires ctl.chatVisible
    requires forall k :: k in NavigationKeys ==> !Pressed(ctl.keys, k)
    ensures Moved(OnInputs(ctl, evs).keys) ==> exists i :: 0 <= i < |evs| && evs[i].Button? && evs[i].down
    decreases evs
  {
    if evs != [] {
      var next := match evs[0]
        case Keyboard(ev) => OnKey(ctl, ev.key, ev.down)
        case Button(b, down) => OnButton(ctl, b, down);
      assert OnInputs(ctl, evs) == OnInputs(next, evs[1..]);
      if !(evs[0].Button? && evs[0].down) {
        assert forall k :: k in NavigationKeys ==> !Pressed(next.keys, k);
        OnlyButtonsMoveWhileChatOpen(next, evs[1..]);
        if Moved(OnInputs(ctl, evs).keys) {
          var i :| 0 <= i < |evs[1..]| && evs[1..][i].Button? && evs[1..][i].down;
          assert evs[i + 1] == evs[1..][i];
        }
      }
    }
  }

  // ---------------------------------------------------------------------------
  // Saving settings

  /** `handleSaveSettings`: after a successful PUT of the settings the local
      customization is replaced and, if the socket is open, an `avatar-update`
      frame is sent; a failed PUT throws and changes nothing. */
  function HandleSaveSettings(current: Customization, settings: Customization, putOk: bool, socketOpen: bool)
    : (r: (SettingsPanel.SaveOutcome, Customization, Option<ClientFrame>))
    ensures r.0 == SettingsPanel.Completed <==> putOk
    ensures r.1 == if putOk then settings else current
    ensures r.2.Some? <==> putOk && socketOpen
    ensures r.2.Some? ==> r.2.value == AvatarUpdateFrame(Some(settings))
  {
    if !putOk then (SettingsPanel.Threw, current, None)
    else (SettingsPanel.Completed, settings, if socketOpen then Some(AvatarUpdateFrame(Some(settings))) else None)
  }

  /** The panel's save button wired to the scene: a guest (no session, so no
      handler) never closes the panel or sends anything; a signed-in user's
      panel closes exactly when the PUT succeeds. */
  function SaveFromPanel(signedIn: bool, current: Customization, settings: Customization,
                         putOk: bool, socketOpen: bool)
    : (r: (SettingsPanel.AfterSave, Customization, Option<ClientFrame>))
    ensures r.0.closed <==> signedIn && putOk
    ensures !r.0.isSaving
    ensures r.2.Some? ==> r.0.closed && socketOpen
    ensures !r.0.closed ==> r.1 == current
  {
    if signedIn then
      var (outcome, c, frame) := HandleSaveSettings(current, settings, putOk, socketOpen);
      (SettingsPanel.HandleSave(settings, Some(outcome)), c, frame)
    else (SettingsPanel.HandleSave(settings, None), current, None)
  }
}
