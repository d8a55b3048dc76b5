/** The avatar customization record and its option lists (types/avatar.ts). */
module AvatarTypes {
  import opened Wrappers

  /** An avatar's look. `style` is kept as the string that travels over the
      wire and is stored in the database: nothing on the server checks it
      against `Style`, so any string can reach the renderer. */
  datatype Customization = Customization(
    bodyColor: string,
    skinColor: string,
    style: string,
    accessories: seq<string>)

  /** The four values the TypeScript type admits for `style`. */
  datatype Style = Default | Athletic | Casual | Formal {
    function Name(): string {
      match this
      case Default => "default"
      case Athletic => "athletic"
      case Casual => "casual"
      case Formal => "formal"
    }
  }

  /** Reads a style name back; anything but the four names is rejected. */
  function ParseStyle(s: string): (r: Option<Style>)
    ensures r.Some? ==> r.value.Name() == s
  {
    if s == "default" then Some(Default)
    else if s == "athletic" then Some(Athletic)
    else if s == "casual" then Some(Casual)
    else if s == "formal" then Some(Formal)
    else None
  }

  lemma ParseStyleName(st: Style)
    ensures ParseStyle(st.Name()) == Some(st)
  {
  }

  const AvatarStyles: seq<string> := ["default", "athletic", "casual", "formal"]

  const AvatarAccessories: seq<string> := ["hat", "glasses", "backpack", "headphones", "tie", "scarf"]

  datatype Preset = Preset(name: string, value: string)

  const BodyColorPresets: seq<Preset> := [
    Preset("Blue", "#3498db"),
    Preset("Red", "#e74c3c"),
    Preset("Green", "#2ecc71"),
    Preset("Orange", "#f39c12"),
    Preset("Purple", "#9b59b6"),
    Preset("Turquoise", "#1abc9c"),
    Preset("Yellow", "#f1c40f"),
    Preset("Dark Orange", "#e67e22"),
    Preset("Pink", "#e91e63"),
    Preset("Teal", "#009688")
  ]

  const SkinColorPresets: seq<Preset> := [
    Preset("Light", "#ffdbac"),
    Preset("Fair", "#f1c27d"),
    Preset("Medium", "#e0ac69"),
    Preset("Olive", "#c68642"),
    Preset("Tan", "#8d5524"),
    Preset("Brown", "#6a3c2a")
  ]

  /** The skin colour every default customization uses. */
  const DefaultSkinColor: string := "#ffdbac"

  predicate Distinct<T(==)>(s: seq<T>) {
    forall i, j :: 0 <= i < j < |s| ==> s[i] != s[j]
  }

  function Values(ps: seq<Preset>): (r: seq<string>)
    ensures |r| == |ps|
    ensures forall i :: 0 <= i < |ps| ==> r[i] == ps[i].value
  {
    if ps == [] then [] else [ps[0].value] + Values(ps[1..])
  }

  /** `AVATAR_STYLES` lists exactly the names of the four styles the type
      admits, each once. */
  lemma StylesMatchType()
    ensures |AvatarStyles| == 4 && Distinct(AvatarStyles)
    ensures forall st: Style :: st.Name() in AvatarStyles
    ensures forall s :: s in AvatarStyles <==> ParseStyle(s).Some?
  {
    assert AvatarStyles[0] == Default.Name();
    assert AvatarStyles[1] == Athletic.Name();
    assert AvatarStyles[2] == Casual.Name();
    assert AvatarStyles[3] == Formal.Name();
  }

  lemma AccessoriesDistinct()
    ensures |AvatarAccessories| == 6 && Distinct(AvatarAccessories)
  {
  }

  /** Presets whose values differ in their third character have pairwise
      different values. */
  lemma DistinctByThirdChar(ps: seq<Preset>, thirds: string)
    requires |ps| == |thirds| && Distinct(thirds)
    requires forall i :: 0 <= i < |ps| ==> |ps[i].value| > 2 && ps[i].value[2] == thirds[i]
    ensures Distinct(Values(ps))
  {
  }

  lemma BodyPresetsDistinct()
    ensures |BodyColorPresets| == 10 && Distinct(Values(BodyColorPresets))
  {
    DistinctByThirdChar(BodyColorPresets, "47e3ba1690");
  }

  lemma SkinPresetsDistinct()
    ensures |SkinColorPresets| == 6 && Distinct(Values(SkinColorPresets))
    ensures SkinColorPresets[0].value == DefaultSkinColor
  {
    DistinctByThirdChar(SkinColorPresets, "f106da");
  }

}
