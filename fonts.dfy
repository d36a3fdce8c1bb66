/** Resolving a font identifier chosen in the form to the TrueType file that the
    generator fetches and embeds. The name font and the body-text font use the
    same mapping. */
module Fonts {

  const DefaultFontFile: string := "DejaVuSans.ttf"

  /** The known identifiers and their files. */
  const FontCatalog: map<string, string> := map[
    "DejaVuSans" := "DejaVuSans.ttf",
    "ScriptMTBold" := "script-mt-bold.ttf",
    "TomNR" := "tomnr.ttf",
    "AlefRegular" := "Alef-Regular.ttf",
    "BodoniFLF" := "BodoniFLF.ttf"
  ]

  /** Every file the generator may fetch for a text font. */
  const FontFiles: set<string> :=
    {"DejaVuSans.ttf", "script-mt-bold.ttf", "tomnr.ttf", "Alef-Regular.ttf", "BodoniFLF.ttf"}

  /** The file for `id`; an identifier outside the catalog falls back to the
      default font instead of failing. */
  function ResolveFont(id: string): (file: string)
    ensures file in FontFiles
    ensures id in FontCatalog ==> file == FontCatalog[id]
    ensures id !in FontCatalog ==> file == DefaultFontFile
  {
    match id
    case "DejaVuSans" => "DejaVuSans.ttf"
    case "ScriptMTBold" => "script-mt-bold.ttf"
    case "TomNR" => "tomnr.ttf"
    case "AlefRegular" => "Alef-Regular.ttf"
    case "BodoniFLF" => "BodoniFLF.ttf"
    case _ => DefaultFontFile
  }

  /** The files are exactly the catalog's files: each one is reachable. */
  lemma CatalogFiles()
    ensures FontCatalog.Values == FontFiles
  {
    assert FontCatalog["DejaVuSans"] == "DejaVuSans.ttf";
    assert FontCatalog["ScriptMTBold"] == "script-mt-bold.ttf";
    assert FontCatalog["TomNR"] == "tomnr.ttf";
    assert FontCatalog["AlefRegular"] == "Alef-Regular.ttf";
    assert FontCatalog["BodoniFLF"] == "BodoniFLF.ttf";
  }

  /** The default identifier and every unknown identifier resolve to the same file. */
  lemma UnknownFontIsDefault(id: string)
    requires id !in FontCatalog
    ensures ResolveFont(id) == ResolveFont("DejaVuSans")
  {
  }

  /** Distinct known identifiers select distinct files. */
  lemma KnownFontsDistinct(a: string, b: string)
    requires a in FontCatalog && b in FontCatalog && a != b
    ensures ResolveFont(a) != ResolveFont(b)
  {
  }
}
