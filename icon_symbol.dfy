/**
 * The icon component of Android and the web: an SF Symbol name is looked up
 * in a fixed table of Material Icons; an unmapped name draws nothing.
 */
module Icons {
  import opened Wrappers
  import opened JsObject

  datatype IconMapping = IconMapping(lib: string, name: string)

  const MATERIAL_ICONS: string := "MaterialIcons"

  const MAPPING: map<string, IconMapping> := map[
    "house.fill" := IconMapping(MATERIAL_ICONS, "home"),
    "paperplane.fill" := IconMapping(MATERIAL_ICONS, "send"),
    "folder.fill" := IconMapping(MATERIAL_ICONS, "folder"),
    "magnifyingglass" := IconMapping(MATERIAL_ICONS, "search"),
    "xmark" := IconMapping(MATERIAL_ICONS, "close"),
    "chevron.right" := IconMapping(MATERIAL_ICONS, "chevron-right")
  ]

  const DEFAULT_SIZE: real := 24.0

  /** A drawn Material icon. */
  datatype MaterialIcon = MaterialIcon(name: string, size: real, color: string)

  /** What the component renders: an icon, or nothing (`null`). An
      inherited Object.prototype member passes the truthiness test but has
      no `lib`, so it falls through to `null` as well. */
  function IconSymbol(name: string, size: Option<real>, color: string): (r: Option<MaterialIcon>)
    ensures r.Some? <==> name in MAPPING
    ensures r.Some? ==> r.value == MaterialIcon(MAPPING[name].name, size.GetOr(DEFAULT_SIZE), color)
  {
    match Get(MAPPING, name)
    case Undefined => None
    case Inherited(_) => None
    case Own(mapping) =>
      if mapping.lib == MATERIAL_ICONS then Some(MaterialIcon(mapping.name, size.GetOr(DEFAULT_SIZE), color))
      else None
  }

  /** Every entry of the table names the Material Icons library. */
  lemma EveryMappingIsMaterial()
    ensures forall k :: k in MAPPING ==> MAPPING[k].lib == MATERIAL_ICONS
  {
  }

  /** Without a size the icon is drawn at 24. */
  lemma SizeDefaultsTo24(name: string, color: string)
    requires name in MAPPING
    ensures IconSymbol(name, None, color) == Some(MaterialIcon(MAPPING[name].name, 24.0, color))
  {
  }

  /** The names Object.prototype lends every object draw nothing. */
  lemma PrototypeNamesDrawNothing(name: string, size: Option<real>, color: string)
    requires name in ObjectPrototypeKeys
    ensures IconSymbol(name, size, color) == None
  {
  }

  lemma HouseIsHome()
    ensures IconSymbol("house.fill", None, "white") == Some(MaterialIcon("home", 24.0, "white"))
  {
  }
}
