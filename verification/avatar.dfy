/** Avatar construction (components/Avatar.tsx): the colour derived from a
    user id, the default customization, the body proportions chosen by style,
    the parts each accessory adds, and the name-tag label. Meshes, materials
    and coordinates are rendering and appear only as the values they are
    built from. */
module Avatar {
  import opened Wrappers
  import opened Js
  import opened AvatarTypes

  datatype Vec3 = Vec3(x: real, y: real, z: real)

  /** The user record that travels in `users` and `user-joined` messages and
      is kept as a rendered avatar's `userData`. The name is optional because
      a `join` frame may lack one; position and rotation are optional because
      the relay stores whatever a `position` frame carried. */
  datatype AvatarData = AvatarData(
    id: string,
    name: Option<string>,
    image: Option<string>,
    position: Option<Vec3>,
    rotation: Option<Vec3>,
    customization: Option<Customization>)

  // ---------------------------------------------------------------------------
  // Colour from id

  const Palette: seq<string> := [
    "#3498db", "#e74c3c", "#2ecc71", "#f39c12",
    "#9b59b6", "#1abc9c", "#f1c40f", "#e67e22"
  ]

  /** One round of `hash = code + ((hash << 5) - hash)`. The left shift wraps
      to 32 bits but the subtraction and addition are done on unwrapped
      numbers, so the hash is not confined to the 32-bit range. */
  function HashStep(h: int, code: int): int {
    code + (ShiftLeft5(h) - h)
  }

  /** The hash of a sequence of code units, folded from the left starting at 0. */
  function HashOf(units: seq<int>): int {
    if units == [] then 0 else HashStep(HashOf(units[..|units| - 1]), units[|units| - 1])
  }

  function Abs(x: int): nat {
    if x < 0 then -x else x
  }

  function ColorIndex(id: string): (r: nat)
    ensures r < |Palette|
  {
    Abs(HashOf(CodeUnits(id))) % |Palette|
  }

  /** `getColorHexFromId`: the palette entry at `|hash| mod 8`. */
  function ColorFromId(id: string): (r: string)
    ensures r in Palette
    ensures r == Palette[ColorIndex(id)]
  {
    Palette[ColorIndex(id)]
  }

  const HashGrowth: int := TwoTo31 + 0xFFFF

  /** Each character moves the hash by at most 2^31 + 0xFFFF, so for ids of
      up to 2^21 code units every intermediate value is an integer below
      2^53 and the double arithmetic of the source is exact. */
  lemma {:induction false} HashBound(units: seq<int>)
    requires forall k :: 0 <= k < |units| ==> 0 <= units[k] < 0x1_0000
    ensures Abs(HashOf(units)) <= |units| * HashGrowth
  {
    if units != [] {
      var init := units[..|units| - 1];
      assert forall k :: 0 <= k < |init| ==> init[k] == units[k];
      HashBound(init);
      StepBound(HashOf(init), units[|units| - 1]);
      assert |units| * HashGrowth == |init| * HashGrowth + HashGrowth;
    }
  }

  lemma StepBound(h: int, code: int)
    requires 0 <= code < 0x1_0000
    ensures Abs(HashStep(h, code)) <= Abs(h) + HashGrowth
  {
  }

  lemma HashExactAsDouble(units: seq<int>)
    requires forall k :: 0 <= k < |units| ==> 0 <= units[k] < 0x1_0000
    requires |units| <= 0x20_0000
    ensures Abs(HashOf(units)) < 0x20_0000_0000_0000
  {
    HashBound(units);
    assert |units| * HashGrowth <= 0x20_0000 * HashGrowth;
  }

  /** The loop of `getColorHexFromId`, run over the id's code units. */
  method GetColorHexFromId(id: string) returns (color: string)
    ensures color in Palette
    ensures color == ColorFromId(id)
  {
    var units := CodeUnits(id);
    var hash := 0;
    var i := 0;
    while i < |units|
      invariant 0 <= i <= |units|
      invariant hash == HashOf(units[..i])
    {
      assert units[..i + 1][..i] == units[..i];
      hash := units[i] + (ShiftLeft5(hash) - hash);
      i := i + 1;
    }
    assert units[..i] == units;
    color := Palette[Abs(hash) % |Palette|];
  }

  lemma EmptyIdColor()
    ensures ColorFromId("") == "#3498db"
  {
  }

  /** The first eight body-colour presets are the id palette, in order. */
  lemma PaletteIsBodyPresetPrefix()
    ensures |Palette| == 8 && Values(BodyColorPresets)[..8] == Palette
  {
    var v := Values(BodyColorPresets)[..8];
    forall k | 0 <= k < 8 ensures v[k] == Palette[k] {
      assert v[k] == BodyColorPresets[k].value;
    }
  }

  // ---------------------------------------------------------------------------
  // Defaults and proportions

  /** The look used when a user record carries no customization. */
  function DefaultCustomization(id: string): (c: Customization)
    ensures c.bodyColor in Palette && c.bodyColor == ColorFromId(id)
    ensures c.skinColor == DefaultSkinColor && c.style == Default.Name() && c.accessories == []
  {
    Customization(ColorFromId(id), DefaultSkinColor, Default.Name(), [])
  }

  function EffectiveCustomization(data: AvatarData): (c: Customization)
    ensures data.customization.Some? ==> c == data.customization.value
    ensures data.customization.None? ==> c == DefaultCustomization(data.id)
  {
    data.customization.GetOr(DefaultCustomization(data.id))
  }

  datatype BodyScale = BodyScale(radius: real, height: real)

  /** The body cylinder's radius and height: athletic and formal have their
      own, every other string (casual included) gets the base proportions. */
  function BodyScaleFor(style: string): (b: BodyScale)
    ensures style == Athletic.Name() ==> b == BodyScale(0.22, 0.9)
    ensures style == Formal.Name() ==> b == BodyScale(0.18, 0.85)
    ensures style != Athletic.Name() && style != Formal.Name() ==> b == BodyScale(0.2, 0.8)
  {
    if style == "athletic" then BodyScale(0.22, 0.9)
    else if style == "formal" then BodyScale(0.18, 0.85)
    else BodyScale(0.2, 0.8)
  }

  // ---------------------------------------------------------------------------
  // Accessories

  /** The meshes the accessory `switch` adds. */
  datatype Part =
    | HatPart
    | LeftGlass | RightGlass | GlassesBridge
    | BackpackPart
    | Headband | LeftEarPiece | RightEarPiece
    | TiePart
    | ScarfPart

  function PartsFor(accessory: string): seq<Part> {
    match accessory
    case "hat" => [HatPart]
    case "glasses" => [LeftGlass, RightGlass, GlassesBridge]
    case "backpack" => [BackpackPart]
    case "headphones" => [Headband, LeftEarPiece, RightEarPiece]
    case "tie" => [TiePart]
    case "scarf" => [ScarfPart]
    case _ => []
  }

  /** The parts of every listed accessory, in list order (a name listed twice
      is drawn twice). */
  function AccessoryParts(accessories: seq<string>): seq<Part> {
    if accessories == [] then [] else PartsFor(accessories[0]) + AccessoryParts(accessories[1..])
  }

  function Known(accessories: seq<string>): (r: seq<string>)
    ensures forall a :: a in r <==> a in accessories && a in AvatarAccessories
  {
    if accessories == [] then []
    else if accessories[0] in AvatarAccessories then [accessories[0]] + Known(accessories[1..])
    else Known(accessories[1..])
  }

  /** The cases drawn are exactly the names `AVATAR_ACCESSORIES` offers. */
  lemma PartsExactlyForListedAccessories(a: string)
    ensures PartsFor(a) != [] <==> a in AvatarAccessories
  {
  }

  /** Names outside the six add nothing: the avatar is built from the known
      names alone. */
  lemma {:induction false} UnknownAccessoriesAddNothing(accessories: seq<string>)
    ensures AccessoryParts(accessories) == AccessoryParts(Known(accessories))
  {
    if accessories != [] {
      UnknownAccessoriesAddNothing(accessories[1..]);
      if accessories[0] in AvatarAccessories {
        assert Known(accessories) == [accessories[0]] + Known(accessories[1..]);
        assert ([accessories[0]] + Known(accessories[1..]))[1..] == Known(accessories[1..]);
      } else {
        PartsExactlyForListedAccessories(accessories[0]);
      }
    }
  }

  // ---------------------------------------------------------------------------
  // The built avatar

  /** `userData.name || 'User'`. */
  function NameTagLabel(name: Option<string>): (tag: string)
    ensures tag != []
    ensures Truthy(name) ==> tag == name.value
    ensures !Truthy(name) ==> tag == "User"
  {
    if name.Some? && name.value != "" then name.value else "User"
  }

  datatype AvatarModel = AvatarModel(
    body: BodyScale,
    bodyColor: string,
    skinColor: string,
    parts: seq<Part>,
    nameTag: string,
    userData: AvatarData)

  /** A record `createAvatar` can place: reading `userData.position.x` or
      `userData.rotation.x` of a missing pose throws. */
  predicate Renderable(data: AvatarData) {
    data.position.Some? && data.rotation.Some?
  }

  /** `createAvatar`, reduced to what it builds the meshes from; `None` when
      it throws on a missing pose, before the group reaches the scene. */
  function CreateAvatar(data: AvatarData): (m: Option<AvatarModel>)
    ensures m.Some? <==> Renderable(data)
    ensures m.Some? ==> m.value.userData == data && m.value.nameTag == NameTagLabel(data.name)
    ensures m.Some? && data.customization.None? ==>
              && m.value.bodyColor == ColorFromId(data.id) && m.value.skinColor == DefaultSkinColor
              && m.value.body == BodyScale(0.2, 0.8) && m.value.parts == []
    ensures m.Some? && data.customization.Some? ==>
              && m.value.bodyColor == data.customization.value.bodyColor
              && m.value.skinColor == data.customization.value.skinColor
              && m.value.body == BodyScaleFor(data.customization.value.style)
              && m.value.parts == AccessoryParts(data.customization.value.accessories)
  {
    if !Renderable(data) then None
    else
      var c := EffectiveCustomization(data);
      Some(AvatarModel(BodyScaleFor(c.style), c.bodyColor, c.skinColor, AccessoryParts(c.accessories),
                       NameTagLabel(data.name), data))
  }
}
