/**
 * The analyser's configuration (config.h): a registry of named properties, each bound to one
 * member of `Config`, that can set that member from a text. The members are a record; a property
 * holds the name of the member it is bound to (`Field`), where the source holds a reference, and
 * reads and writes it through `Get` and `Set`. The text-to-number conversions of the C library are
 * parameters, and a `double` is kept as its 64 bits and never computed with.
 */
module Configuration {
  import opened Wrappers

  /** An 8-bit colour channel. */
  newtype uint8 = x: int | 0 <= x < 256

  datatype Color = Color(r: uint8, g: uint8, b: uint8, a: uint8)

  /** A `double`, by its IEEE 754 bits. */
  datatype Double = Double(bits: bv64)

  /** The C++ types a property can be bound to. */
  datatype Kind = Int64Kind | IntKind | DoubleKind | StringKind | ColorKind

  /** The value of a member of `Config`. */
  datatype Setting =
    | Int64Setting(i: int)
    | IntSetting(i: int)
    | DoubleSetting(d: Double)
    | StringSetting(s: string)
    | ColorSetting(c: Color)

  function KindOf(s: Setting): Kind
  {
    match s
    case Int64Setting(_) => Int64Kind
    case IntSetting(_) => IntKind
    case DoubleSetting(_) => DoubleKind
    case StringSetting(_) => StringKind
    case ColorSetting(_) => ColorKind
  }

  /** The members of `Config` a property can be bound to. */
  datatype Field =
    | MinTimeScaleLabelWidthPx | MinCameraWidthNs
    | BackgroundColor | TopBottomBarColor | RulerLine1Color | RulerLine2Color
    | WorkItemBlockBorderColor | WorkItemBackgroundColor_Slow | WorkItemBackgroundColor_Mid
    | WorkItemBackgroundColor_Fast | WorkItemText1Color | WorkItemText2Color
    | WorkerBannerBackgroundColor | WorkerBannerTextColor | MouseMarkerColor
    | MouseZoomSpeed | FontFilePath

  /** The type of each member. */
  function FieldKind(f: Field): Kind
  {
    match f
    case MinTimeScaleLabelWidthPx => IntKind
    case MinCameraWidthNs => Int64Kind
    case MouseZoomSpeed => DoubleKind
    case FontFilePath => StringKind
    case _ => ColorKind
  }

  /** The members of `Config` a property can be bound to, with their C++ types. */
  datatype Members = Members(
    minTimeScaleLabelWidthPx: int, minCameraWidthNs: int,
    backgroundColor: Color, topBottomBarColor: Color, rulerLine1Color: Color, rulerLine2Color: Color,
    workItemBlockBorderColor: Color, workItemBackgroundColorSlow: Color, workItemBackgroundColorMid: Color,
    workItemBackgroundColorFast: Color, workItemText1Color: Color, workItemText2Color: Color,
    workerBannerBackgroundColor: Color, workerBannerTextColor: Color, mouseMarkerColor: Color,
    mouseZoomSpeed: Double, fontFilePath: string)

  /** Reading the member `f` through a property's reference. */
  function Get(m: Members, f: Field): (s: Setting)
    ensures KindOf(s) == FieldKind(f)
  {
    match f
    case MinTimeScaleLabelWidthPx => IntSetting(m.minTimeScaleLabelWidthPx)
    case MinCameraWidthNs => Int64Setting(m.minCameraWidthNs)
    case BackgroundColor => ColorSetting(m.backgroundColor)
    case TopBottomBarColor => ColorSetting(m.topBottomBarColor)
    case RulerLine1Color => ColorSetting(m.rulerLine1Color)
    case RulerLine2Color => ColorSetting(m.rulerLine2Color)
    case WorkItemBlockBorderColor => ColorSetting(m.workItemBlockBorderColor)
    case WorkItemBackgroundColor_Slow => ColorSetting(m.workItemBackgroundColorSlow)
    case WorkItemBackgroundColor_Mid => ColorSetting(m.workItemBackgroundColorMid)
    case WorkItemBackgroundColor_Fast => ColorSetting(m.workItemBackgroundColorFast)
    case WorkItemText1Color => ColorSetting(m.workItemText1Color)
    case WorkItemText2Color => ColorSetting(m.workItemText2Color)
    case WorkerBannerBackgroundColor => ColorSetting(m.workerBannerBackgroundColor)
    case WorkerBannerTextColor => ColorSetting(m.workerBannerTextColor)
    case MouseMarkerColor => ColorSetting(m.mouseMarkerColor)
    case MouseZoomSpeed => DoubleSetting(m.mouseZoomSpeed)
    case FontFilePath => StringSetting(m.fontFilePath)
  }

  /** Writing `s` to the member `f` through a property's reference, which has the member's type. */
  function Set(m: Members, f: Field, s: Setting): (r: Members)
    requires KindOf(s) == FieldKind(f)
  {
    match f
    case MinTimeScaleLabelWidthPx => m.(minTimeScaleLabelWidthPx := s.i)
    case MinCameraWidthNs => m.(minCameraWidthNs := s.i)
    case BackgroundColor => m.(backgroundColor := s.c)
    case TopBottomBarColor => m.(topBottomBarColor := s.c)
    case RulerLine1Color => m.(rulerLine1Color := s.c)
    case RulerLine2Color => m.(rulerLine2Color := s.c)
    case WorkItemBlockBorderColor => m.(workItemBlockBorderColor := s.c)
    case WorkItemBackgroundColor_Slow => m.(workItemBackgroundColorSlow := s.c)
    case WorkItemBackgroundColor_Mid => m.(workItemBackgroundColorMid := s.c)
    case WorkItemBackgroundColor_Fast => m.(workItemBackgroundColorFast := s.c)
    case WorkItemText1Color => m.(workItemText1Color := s.c)
    case WorkItemText2Color => m.(workItemText2Color := s.c)
    case WorkerBannerBackgroundColor => m.(workerBannerBackgroundColor := s.c)
    case WorkerBannerTextColor => m.(workerBannerTextColor := s.c)
    case MouseMarkerColor => m.(mouseMarkerColor := s.c)
    case MouseZoomSpeed => m.(mouseZoomSpeed := s.d)
    case FontFilePath => m.(fontFilePath := s.s)
  }

  /** A member reads back what was written to it, and writing it leaves every other member alone. */
  lemma SetThenGet(m: Members, f: Field, s: Setting, g: Field)
    requires KindOf(s) == FieldKind(f)
    ensures Get(Set(m, f, s), g) == if g == f then s else Get(m, g)
  {
  }

  /** `PropertyTyped<T>`: a name, a description and the member it sets, of type `T`. */
  datatype Property = Property(name: string, description: string, field: Field, kind: Kind)

  datatype ConfigError =
    | AlreadyRegistered(name: string)  // RegisterProperty: runtime_error
    | NotImplemented                   // LexicalCast<SDL_Color>: logic_error
    | InvalidNumber(text: string)      // LexicalCast<double>: std::stod throws

  /** `std::atoll`, `std::atoi` and `std::stod`; the last gives None where it throws. */
  datatype Conversions = Conversions(atoll: string -> int, atoi: string -> int, stod: string -> Option<Double>)

  /** `LexicalCast<T>(text)` for the `T` that `kind` names. */
  function LexicalCast(kind: Kind, text: string, conv: Conversions): (r: Result<Setting, ConfigError>)
    ensures r.Ok? ==> KindOf(r.value) == kind
    ensures kind == StringKind ==> r == Ok(StringSetting(text))
    ensures kind == ColorKind ==> r == Err(NotImplemented)
    ensures kind == Int64Kind ==> r == Ok(Int64Setting(conv.atoll(text)))
    ensures kind == IntKind ==> r == Ok(IntSetting(conv.atoi(text)))
    ensures kind == DoubleKind ==> (r.Ok? <==> conv.stod(text).Some?)
  {
    match kind
    case Int64Kind => Ok(Int64Setting(conv.atoll(text)))
    case IntKind => Ok(IntSetting(conv.atoi(text)))
    case DoubleKind => if conv.stod(text).Some? then Ok(DoubleSetting(conv.stod(text).value)) else Err(InvalidNumber(text))
    case StringKind => Ok(StringSetting(text))
    case ColorKind => Err(NotImplemented)
  }

  /** `RegisterProperty`: the registry with `p` added under its name, unless the name is taken. */
  function Register(properties: map<string, Property>, p: Property): (r: Result<map<string, Property>, ConfigError>)
    ensures r.Err? <==> p.name in properties
    ensures r.Err? ==> r.error == AlreadyRegistered(p.name)
    ensures r.Ok? ==> (r.value.Keys == properties.Keys + {p.name} && r.value[p.name] == p &&
      forall n :: n in properties ==> r.value[n] == properties[n])
  {
    if p.name in properties then Err(AlreadyRegistered(p.name)) else Ok(properties[p.name := p])
  }

  /** Registering properties one after the other, stopping at the first error. */
  function RegisterAll(properties: map<string, Property>, ps: seq<Property>): Result<map<string, Property>, ConfigError>
    decreases |ps|
  {
    if ps == [] then Ok(properties)
    else match Register(properties, ps[0])
      case Err(e) => Err(e)
      case Ok(m) => RegisterAll(m, ps[1..])
  }

  /** Names no two of which are the same. */
  predicate DistinctNames(ps: seq<Property>)
  {
    forall i, j :: 0 <= i < j < |ps| ==> ps[i].name != ps[j].name
  }

  function Names(ps: seq<Property>): (r: set<string>)
    ensures forall i :: 0 <= i < |ps| ==> ps[i].name in r
    ensures forall n :: n in r ==> exists i :: 0 <= i < |ps| && ps[i].name == n
  {
    if ps == [] then {} else {ps[0].name} + Names(ps[1..])
  }

  /**
   * Registering properties whose names are distinct and new never fails, and adds exactly
   * one entry per property, each under its own name.
   */
  lemma {:induction false} RegisterDistinct(properties: map<string, Property>, ps: seq<Property>)
    requires DistinctNames(ps) && forall i :: 0 <= i < |ps| ==> ps[i].name !in properties
    ensures RegisterAll(properties, ps).Ok?
    ensures var r := RegisterAll(properties, ps).value;
      r.Keys == properties.Keys + Names(ps) &&
      (forall i :: 0 <= i < |ps| ==> r[ps[i].name] == ps[i]) &&
      (forall n :: n in properties ==> r[n] == properties[n])
    decreases |ps|
  {
    if ps != [] {
      var m := properties[ps[0].name := ps[0]];
      forall i | 0 <= i < |ps[1..]|
        ensures ps[1..][i].name !in m
      {
        assert ps[1..][i] == ps[i + 1];
      }
      RegisterDistinct(m, ps[1..]);
      forall i | 1 <= i < |ps|
        ensures ps[i] == ps[1..][i - 1]
      {
      }
    }
  }

  /** A registration that meets a name already taken fails with that name and adds nothing. */
  lemma {:induction false} RegisterDuplicate(properties: map<string, Property>, ps: seq<Property>, k: nat)
    requires k < |ps| && DistinctNames(ps[..k]) && (forall i :: 0 <= i < k ==> ps[i].name !in properties)
    requires ps[k].name in properties || exists i :: 0 <= i < k && ps[i].name == ps[k].name
    ensures RegisterAll(properties, ps) == Err(AlreadyRegistered(ps[k].name))
    decreases k
  {
    if k > 0 {
      var m := properties[ps[0].name := ps[0]];
      var rest := ps[1..];
      assert rest[..k - 1] == ps[1..k];
      forall i | 0 <= i < k - 1
        ensures rest[i].name !in m
      {
        assert rest[i] == ps[i + 1];
      }
      assert rest[k - 1] == ps[k];
      if ps[k].name !in properties && ps[0].name != ps[k].name {
        var i :| 0 <= i < k && ps[i].name == ps[k].name;
        assert rest[i - 1].name == rest[k - 1].name;
      }
      RegisterDuplicate(m, rest, k - 1);
    }
  }

  /** The properties `Config` registers, in the order it registers them. */
  const ConfigProperties: seq<Property> := [
    Property("ui.timescale.min-label-distance", "Minimal distance of time labels (in pixels) on the time scale.", MinTimeScaleLabelWidthPx, IntKind),
    Property("ui.timescale.min-view-timespan", "Minimal time span (in nanoseconds) to which camera can zoom in.", MinCameraWidthNs, Int64Kind),
    Property("ui.background-color", "Background color.", BackgroundColor, ColorKind),
    Property("ui.top-bottom-bar-color", "Top/bottom bars background color.", TopBottomBarColor, ColorKind),
    Property("ui.ruler.line1-color", "Time scale horizontal ruler line color.", RulerLine1Color, ColorKind),
    Property("ui.ruler.line2-color", "Time scale vertical ruler lines color.", RulerLine2Color, ColorKind),
    Property("ui.workitem.border-color", "Work item block border color.", WorkItemBlockBorderColor, ColorKind),
    Property("ui.workitem.background-color:slow", "Slowest work item background color.", WorkItemBackgroundColor_Slow, ColorKind),
    Property("ui.workitem.background-color:mid", "Average or median work item background color.", WorkItemBackgroundColor_Mid, ColorKind),
    Property("ui.workitem.background-color:fast", "Fastes work item background border color.", WorkItemBackgroundColor_Fast, ColorKind),
    Property("ui.workitem.text1-color", "Work item routine name caption color.", WorkItemText1Color, ColorKind),
    Property("ui.workitem.text2-color", "Work item duration color.", WorkItemText2Color, ColorKind),
    Property("ui.worker.background-color", "Worker banner background color.", WorkerBannerBackgroundColor, ColorKind),
    Property("ui.worker.text-color", "Worker banner caption color.", WorkerBannerTextColor, ColorKind),
    Property("ui.mouse.marker-color", "Mouse marker color (and its time point).", MouseMarkerColor, ColorKind),
    Property("ui.mouse.zoom-speed", "Mouse zoom speed.", MouseZoomSpeed, DoubleKind),
    Property("ui.font-file", "File path to the font asset (.ttf).", FontFilePath, StringKind)
  ]

  /** The member initialisers of `Config`; 0.75 is 0x3FE8000000000000 as a `double`. */
  function DefaultSettings(): Members
  {
    Members(
      192, 1000,
      Color(26, 22, 22, 255), Color(43, 43, 47, 255), Color(180, 240, 210, 128), Color(180, 240, 210, 255),
      Color(16, 6, 6, 255), Color(103, 51, 45, 255), Color(150, 120, 50, 255),
      Color(51, 103, 45, 255), Color(180, 240, 210, 255), Color(130, 240, 175, 255),
      Color(128, 28, 28, 64), Color(175, 125, 125, 255), Color(180, 240, 210, 135),
      Double(0x3FE8_0000_0000_0000), "assets/fonts/Ubuntu_Mono/UbuntuMono-Regular.ttf")
  }

  /** The seventeen names `Config` registers are distinct, so its constructor never throws. */
  lemma ConfigNamesDistinct()
    ensures DistinctNames(ConfigProperties)
  {
    DistinctRows(0, 6);
    DistinctRows(6, 12);
    DistinctRows(12, 17);
  }

  lemma DistinctRows(lo: nat, hi: nat)
    requires lo <= hi <= |ConfigProperties| && hi - lo <= 6
    ensures forall i, j :: lo <= i < hi && i < j < |ConfigProperties| ==> ConfigProperties[i].name != ConfigProperties[j].name
  {
  }

  lemma FreshName(ps: seq<Property>, i: nat)
    requires DistinctNames(ps) && i < |ps|
    ensures ps[i].name !in Names(ps[..i])
  {
    forall k | 0 <= k < i
      ensures ps[..i][k].name != ps[i].name
    {
      assert ps[..i][k] == ps[k];
    }
  }

  lemma {:induction false} NamesPrefix(ps: seq<Property>, i: nat)
    requires i < |ps|
    ensures Names(ps[..i + 1]) == Names(ps[..i]) + {ps[i].name}
  {
    var a, b := Names(ps[..i + 1]), Names(ps[..i]) + {ps[i].name};
    forall n | n in a
      ensures n in b
    {
      var k :| 0 <= k < i + 1 && ps[..i + 1][k].name == n;
      if k < i {
        assert ps[..i][k].name == n;
      }
    }
    forall n | n in b
      ensures n in a
    {
      if n != ps[i].name {
        var k :| 0 <= k < i && ps[..i][k].name == n;
        assert ps[..i + 1][k].name == n;
      } else {
        assert ps[..i + 1][i].name == n;
      }
    }
  }

  lemma RegisterStep(properties: map<string, Property>, ps: seq<Property>, i: nat)
    requires i < |ps| && Register(properties, ps[i]).Ok?
    ensures RegisterAll(properties, ps[i..]) == RegisterAll(Register(properties, ps[i]).value, ps[i + 1..])
  {
    assert ps[i..][0] == ps[i] && ps[i..][1..] == ps[i + 1..];
  }

  /** Properties each bound to a member of its own type. */
  predicate BoundTo(ps: seq<Property>)
  {
    forall i :: 0 <= i < |ps| ==> ps[i].kind == FieldKind(ps[i].field)
  }

  /** Each property `Config` registers is bound to a member of its own type. */
  lemma ConfigPropertiesBound()
    ensures BoundTo(ConfigProperties)
  {
    BoundRows(0, 6);
    BoundRows(6, 12);
    BoundRows(12, 17);
  }

  lemma BoundRows(lo: nat, hi: nat)
    requires lo <= hi <= |ConfigProperties| && hi - lo <= 6
    ensures forall i :: lo <= i < hi ==> ConfigProperties[i].kind == FieldKind(ConfigProperties[i].field)
  {
  }

  /** The registry of a `Config`: each property under its own name, bound to a member of its own type. */
  ghost predicate Bound(properties: map<string, Property>)
  {
    forall n :: n in properties ==> properties[n].name == n && properties[n].kind == FieldKind(properties[n].field)
  }

  /** `PropertyTyped<T>::Value`: the member `p` is bound to, set from `text`. */
  function Assign(settings: Members, p: Property, text: string, conv: Conversions): (r: Result<Members, ConfigError>)
    requires p.kind == FieldKind(p.field)
    ensures r.Err? <==> LexicalCast(p.kind, text, conv).Err?
    ensures r.Err? ==> r.error == LexicalCast(p.kind, text, conv).error
    ensures r.Ok? ==> Get(r.value, p.field) == LexicalCast(p.kind, text, conv).value
    ensures r.Ok? ==> forall f :: f != p.field ==> Get(r.value, f) == Get(settings, f)
  {
    match LexicalCast(p.kind, text, conv)
    case Err(e) => Err(e)
    case Ok(v) =>
      var r := Set(settings, p.field, v);
      forall f
        ensures Get(r, f) == if f == p.field then v else Get(settings, f)
      {
        SetThenGet(settings, p.field, v, f);
      }
      Ok(r)
  }

  /** A string property set from a text holds that text; a colour property cannot be set. */
  lemma AssignStringColor(settings: Members, p: Property, text: string, conv: Conversions)
    requires p.kind == FieldKind(p.field)
    ensures p.kind == StringKind ==> Assign(settings, p, text, conv).Ok? && Get(Assign(settings, p, text, conv).value, p.field) == StringSetting(text)
    ensures p.kind == ColorKind ==> Assign(settings, p, text, conv) == Err(NotImplemented)
  {
  }

  /** `Config`, with the registry of `ConfigBase`. */
  class Config {
    var properties: map<string, Property>
    var settings: Members

    ghost predicate Valid()
      reads this
    {
      Bound(properties)
    }

    /** `RegisterProperty<T>(field, name, description)`. */
    method RegisterProperty(field: Field, kind: Kind, name: string, description: string) returns (error: Option<ConfigError>)
      modifies this
      ensures settings == old(settings)
      ensures var r := Register(old(properties), Property(name, description, field, kind));
        if r.Ok? then error.None? && properties == r.value else error == Some(r.error) && properties == old(properties)
    {
      if name in properties {
        return Some(AlreadyRegistered(name));
      }
      properties := properties[name := Property(name, description, field, kind)];
      return None;
    }

    /** `PropertyTyped<T>::Value(text)` on the property `p`. */
    method Value(p: Property, text: string, conv: Conversions) returns (error: Option<ConfigError>)
      requires p.kind == FieldKind(p.field)
      modifies this
      ensures properties == old(properties)
      ensures var r := Assign(old(settings), p, text, conv);
        if r.Ok? then error.None? && settings == r.value else error == Some(r.error) && settings == old(settings)
    {
      var cast := LexicalCast(p.kind, text, conv);
      if cast.Err? {
        return Some(cast.error);
      }
      settings := Set(settings, p.field, cast.value);
      return None;
    }

    /** The members at their initial values and the seventeen properties registered. */
    constructor ()
      ensures settings == DefaultSettings()
      ensures Ok(properties) == RegisterAll(map[], ConfigProperties) && Valid()
    {
      settings := DefaultSettings();
      properties := map[];
      new;
      RegisterConfigProperties();
    }

    /** The constructor's seventeen `RegisterProperty` calls. */
    method RegisterConfigProperties()
      requires properties == map[]
      modifies this
      ensures settings == old(settings)
      ensures Ok(properties) == RegisterAll(map[], ConfigProperties) && Valid()
    {
      ConfigNamesDistinct();
      ConfigPropertiesBound();
      RegisterProperties(ConfigProperties);
    }

    /** The body of the constructor: `RegisterProperty` on each of `ps` in turn. */
    method RegisterProperties(ps: seq<Property>)
      requires properties == map[] && DistinctNames(ps) && BoundTo(ps)
      modifies this
      ensures settings == old(settings) && Ok(properties) == RegisterAll(map[], ps)
      ensures properties.Keys == Names(ps) && Valid()
    {
      var i := 0;
      while i < |ps|
        invariant 0 <= i <= |ps| && settings == old(settings) && Valid()
        invariant RegisterAll(map[], ps) == RegisterAll(properties, ps[i..])
        invariant properties.Keys == Names(ps[..i])
      {
        var p := ps[i];
        FreshName(ps, i);
        RegisterStep(properties, ps, i);
        NamesPrefix(ps, i);
        var error := RegisterProperty(p.field, p.kind, p.name, p.description);
        assert error.None?;
        i := i + 1;
      }
      assert ps[..i] == ps;
    }
  }
}
