/** The template filler and its two callers: one certificate is the template's
    first page with three black text overlays (the student's name, the date and
    the body text); the preview fills it for the first listed name, the download
    fills it for every listed name in turn. The PDF library is reduced to the
    overlays it is asked to draw, and fetching the template and the fonts to
    whether each asset could be loaded. */
module Certificate {
  import opened Text
  import opened Dates
  import opened Fonts
  import opened FontFit

  /** The form's state as the generator reads it. */
  datatype FieldValues = FieldValues(
    names: string,              // comma-separated student names
    date: string,               // ISO date from the date input
    additionalText: string,     // body text
    additionalTextFont: string, // font identifier for the body text
    fontSize: int,              // base size for the name
    font: string                // font identifier for the name
  )

  datatype Color = Rgb(red: real, green: real, blue: real)

  const Black: Color := Rgb(0.0, 0.0, 0.0)

  /** The page's standard font, or a TrueType file embedded into the document. */
  datatype OverlayFont = PageDefault | Embedded(file: string)

  datatype TextOverlay = TextOverlay(text: string, x: int, y: int, size: int, font: OverlayFont, color: Color)

  /** A generated certificate: the overlays drawn on the template's first page. */
  datatype Pdf = Pdf(firstPage: seq<TextOverlay>)

  datatype LoadError = TemplateLoadError | FontLoadError(file: string)

  datatype Generated = Ok(pdf: Pdf) | Err(error: LoadError)

  /** Font metrics: the width of a text in a font file at a size. */
  type Metrics = (string, string, int) -> real

  /** Whether the asset at a path is fetched and parsed successfully during one
      generation. Every generation fetches its assets afresh, so a batch has one
      of these per pass. */
  type Loads = string -> bool

  const TemplatePath: string := "template.pdf"
  const DateSize: int := 21
  const BodySize: int := 16

  /** The width of `name` in `file` as a function of the size alone. */
  function NameWidth(metrics: Metrics, file: string, name: string): int -> real
  {
    s => metrics(file, name, s)
  }

  /** All three assets a generation fetches can be loaded. */
  predicate AssetsLoad(v: FieldValues, loads: Loads)
  {
    loads(TemplatePath) && loads(ResolveFont(v.font)) && loads(ResolveFont(v.additionalTextFont))
  }

  /** Fills the template for one student. Loading fails in the order the assets
      are fetched: the template, then the name font, then the body font. */
  function GeneratePdfForStudent(v: FieldValues, metrics: Metrics, loads: Loads, studentName: string): (r: Generated)
    ensures r.Ok? <==> AssetsLoad(v, loads)
    ensures !loads(TemplatePath) ==> r == Err(TemplateLoadError)
    ensures r.Err? ==> r.error == TemplateLoadError || r.error.file in FontFiles
    ensures loads(TemplatePath) && r.Err? ==>
      && r.error.FontLoadError?
      && !loads(r.error.file)
      && r.error.file in {ResolveFont(v.font), ResolveFont(v.additionalTextFont)}
    ensures loads(TemplatePath) && !loads(ResolveFont(v.font)) ==>
      r == Err(FontLoadError(ResolveFont(v.font)))
    ensures loads(TemplatePath) && loads(ResolveFont(v.font)) && !loads(ResolveFont(v.additionalTextFont)) ==>
      r == Err(FontLoadError(ResolveFont(v.additionalTextFont)))
    ensures r.Ok? ==> |r.pdf.firstPage| == 3 && r.pdf.firstPage[0].text == studentName
  {
    var formattedDate := FormatDateToBrazilian(v.date);
    if !loads(TemplatePath) then Err(TemplateLoadError)
    else
      var nameFont := ResolveFont(v.font);
      if !loads(nameFont) then Err(FontLoadError(nameFont))
      else
        var bodyFont := ResolveFont(v.additionalTextFont);
        if !loads(bodyFont) then Err(FontLoadError(bodyFont))
        else
          var nameSize := FitSize(NameWidth(metrics, nameFont, studentName), v.fontSize);
          Ok(Pdf([
            TextOverlay(studentName, 99, 180, nameSize, Embedded(nameFont), Black),
            TextOverlay(formattedDate, 99, 82, DateSize, PageDefault, Black),
            TextOverlay(v.additionalText, 99, 340, BodySize, Embedded(bodyFont), Black)
          ]))
  }

  /** The name is drawn in the resolved name font at a size that fits within
      `MaxWidth` or sits at the floor, never above the base size, and at the
      largest such size: every larger size up to the base was too wide. */
  lemma NameOverlayFits(v: FieldValues, metrics: Metrics, loads: Loads, name: string)
    requires AssetsLoad(v, loads)
    ensures var o := GeneratePdfForStudent(v, metrics, loads, name).pdf.firstPage[0];
      var file := ResolveFont(v.font);
      && o.font == Embedded(file)
      && o.size == FitSize(NameWidth(metrics, file, name), v.fontSize)
      && (v.fontSize <= MinSize ==> o.size == v.fontSize)
      && o.size <= v.fontSize
      && (v.fontSize >= MinSize ==> o.size >= MinSize)
      && (metrics(file, name, o.size) <= MaxWidth || o.size <= MinSize)
      && (forall s :: o.size < s <= v.fontSize ==> metrics(file, name, s) > MaxWidth)
  {
    var file := ResolveFont(v.font);
    var w := NameWidth(metrics, file, name);
    var r := FitSize(w, v.fontSize);
    assert forall s :: w(s) == metrics(file, name, s);
  }

  /** Each certificate shows only its own name: two students' certificates
      differ in nothing but the name overlay's text and size. */
  lemma OnlyOwnName(v: FieldValues, metrics: Metrics, loads: Loads, a: string, b: string)
    requires AssetsLoad(v, loads)
    ensures var pa := GeneratePdfForStudent(v, metrics, loads, a).pdf.firstPage;
      var pb := GeneratePdfForStudent(v, metrics, loads, b).pdf.firstPage;
      && pa[0].text == a && pb[0].text == b
      && pa[0].(text := b, size := pb[0].size) == pb[0]
      && pa[1..] == pb[1..]
  {
  }

  /** The date overlay carries the date in Brazilian form, at its fixed size and
      place in the page's standard font; the body text keeps its own font. */
  lemma DateAndBodyOverlays(v: FieldValues, metrics: Metrics, loads: Loads, name: string)
    requires AssetsLoad(v, loads)
    requires IsIsoDate(v.date)
    ensures var p := GeneratePdfForStudent(v, metrics, loads, name).pdf.firstPage;
      && p[1].text == v.date[8..] + "/" + v.date[5..7] + "/" + v.date[..4]
      && IsBrazilianDate(p[1].text)
      && p[1].font == PageDefault && p[1].size == DateSize
      && p[2].text == v.additionalText && p[2].font == Embedded(ResolveFont(v.additionalTextFont))
      && p[2].size == BodySize
  {
    IsoDateToBrazilian(v.date);
  }

  /** The page layout for any field values: all three overlays are black and
      start at x = 99; the name is at y = 180, the date at y = 82 and the body
      at y = 340; the date overlay carries the reformatted date whatever the
      date string is, at size 21 in the page's standard font, and the body text
      is at size 16 in the resolved body font. */
  lemma OverlayLayout(v: FieldValues, metrics: Metrics, loads: Loads, name: string)
    requires AssetsLoad(v, loads)
    ensures var p := GeneratePdfForStudent(v, metrics, loads, name).pdf.firstPage;
      && |p| == 3
      && (forall i :: 0 <= i < 3 ==> p[i].x == 99 && p[i].color == Black)
      && p[0].y == 180 && p[1].y == 82 && p[2].y == 340
      && p[1].text == FormatDateToBrazilian(v.date) && p[1].size == DateSize && p[1].font == PageDefault
      && p[2].text == v.additionalText && p[2].size == BodySize
      && p[2].font == Embedded(ResolveFont(v.additionalTextFont))
  {
  }

  /** An empty date field still yields a certificate, with `undefined/undefined/`
      as its date. */
  lemma EmptyDateOverlay(v: FieldValues, metrics: Metrics, loads: Loads, name: string)
    requires AssetsLoad(v, loads) && v.date == ""
    ensures GeneratePdfForStudent(v, metrics, loads, name).pdf.firstPage[1].text == "undefined/undefined/"
  {
    FormatEmptyDate();
  }

  /** The name of the downloaded file for one student: the student's name sits,
      unaltered, between a fixed prefix and a fixed suffix. */
  function FileNameFor(student: string): (f: string)
    ensures |f| == |student| + 16
    ensures f[..12] == "certificado_" && f[|f| - 4..] == ".pdf"
    ensures f[12..|f| - 4] == student
  {
    "certificado_" + student + ".pdf"
  }

  /** Distinct names give distinct files. */
  lemma FileNameInjective(a: string, b: string)
    requires FileNameFor(a) == FileNameFor(b)
    ensures a == b
  {
    var fa, fb := FileNameFor(a), FileNameFor(b);
    assert a == fa[12..|fa| - 4];
    assert b == fb[12..|fb| - 4];
  }

  /** What the preview button leads to. */
  datatype Preview = NoPreview | Shown(student: string, pdf: Pdf) | PreviewFailed(error: LoadError)

  /** The preview fills the template for the first comma-separated segment only,
      and does nothing when that segment is empty. */
  function HandleSubmit(v: FieldValues, metrics: Metrics, loads: Loads): (p: Preview)
    ensures p.NoPreview? <==> Split(v.names, ',')[0] == ""
    ensures p.Shown? ==>
      (p.student == Split(v.names, ',')[0] && GeneratePdfForStudent(v, metrics, loads, p.student) == Ok(p.pdf))
    ensures p.PreviewFailed? ==>
      GeneratePdfForStudent(v, metrics, loads, Split(v.names, ',')[0]) == Err(p.error)
  {
    var firstStudent := Split(v.names, ',')[0];
    if firstStudent == "" then NoPreview
    else
      match GeneratePdfForStudent(v, metrics, loads, firstStudent)
      case Ok(pdf) => Shown(firstStudent, pdf)
      case Err(e) => PreviewFailed(e)
  }

  /** The preview depends on the first name only: whatever follows the first
      comma is ignored. */
  lemma PreviewUsesFirstNameOnly(v: FieldValues, metrics: Metrics, loads: Loads, first: string, rest: string)
    requires ',' !in first
    ensures HandleSubmit(v.(names := first + "," + rest), metrics, loads)
         == HandleSubmit(v.(names := first), metrics, loads)
  {
    SplitSeparatorFreePrefix(first, "," + rest, ',');
    SplitSeparatorFreePrefix(first, "", ',');
    assert first + "" == first;
    assert first + "," + rest == first + ("," + rest);
  }

  /** One downloaded file. */
  datatype Download = Download(student: string, fileName: string, pdf: Pdf)

  /** How a batch of downloads ended. */
  datatype BatchEnd = Completed | Aborted(error: LoadError)

  /** How many passes, counting from the first of `n`, load all their assets
      before the first one that does not. */
  function LoadedPrefix(v: FieldValues, passLoads: nat -> Loads, n: nat): (k: nat)
    ensures k <= n
    ensures forall j :: 0 <= j < k ==> AssetsLoad(v, passLoads(j))
    ensures k < n ==> !AssetsLoad(v, passLoads(k))
    decreases n
  {
    if n == 0 then 0
    else
      var k := LoadedPrefix(v, passLoads, n - 1);
      if k == n - 1 && AssetsLoad(v, passLoads(n - 1)) then n else k
  }

  /** The download button: one certificate per comma-separated segment, in
      order and without skipping empty segments. Pass `i` fetches its assets
      afresh with outcome `passLoads(i)`. A generation that fails ends the batch;
      the files offered before it stay offered. */
  method DownloadPdf(v: FieldValues, metrics: Metrics, passLoads: nat -> Loads)
    returns (downloads: seq<Download>, end: BatchEnd)
    ensures var students := Split(v.names, ',');
      && |downloads| == LoadedPrefix(v, passLoads, |students|)
      && (forall k :: 0 <= k < |downloads| ==>
            && downloads[k].student == students[k]
            && downloads[k].fileName == FileNameFor(students[k])
            && GeneratePdfForStudent(v, metrics, passLoads(k), students[k]) == Ok(downloads[k].pdf)
            && downloads[k].pdf.firstPage[0].text == students[k])
      && (end == Completed <==> |downloads| == |students|)
      && (end.Aborted? ==>
            GeneratePdfForStudent(v, metrics, passLoads(|downloads|), students[|downloads|]) == Err(end.error))
      && ((forall k :: 0 <= k < |students| ==> AssetsLoad(v, passLoads(k))) ==> end == Completed)
  {
    var students := Split(v.names, ',');
    downloads := [];
    end := Completed;
    for i := 0 to |students|
      invariant |downloads| == i
      invariant forall k :: 0 <= k < i ==>
        && downloads[k].student == students[k]
        && downloads[k].fileName == FileNameFor(students[k])
        && GeneratePdfForStudent(v, metrics, passLoads(k), students[k]) == Ok(downloads[k].pdf)
        && downloads[k].pdf.firstPage[0].text == students[k]
      invariant forall k :: 0 <= k < i ==> AssetsLoad(v, passLoads(k))
    {
      var student := students[i];
      var generated := GeneratePdfForStudent(v, metrics, passLoads(i), student);
      if generated.Err? {
        end := Aborted(generated.error);
        return;
      }
      downloads := downloads + [Download(student, FileNameFor(student), generated.pdf)];
    }
  }

  /** A fetch that fails only on the second pass: the first student's file is
      offered, and then the batch is aborted with the second pass's error. */
  method PartialBatchExample(v: FieldValues, metrics: Metrics, passLoads: nat -> Loads)
    returns (downloads: seq<Download>, end: BatchEnd)
    requires v.names == "Ana,Beto"
    requires AssetsLoad(v, passLoads(0)) && !AssetsLoad(v, passLoads(1))
    ensures |downloads| == 1 && downloads[0].fileName == "certificado_Ana.pdf"
    ensures end.Aborted? && GeneratePdfForStudent(v, metrics, passLoads(1), "Beto") == Err(end.error)
  {
    JoinTwo("Ana", "Beto", ',');
    assert "Ana,Beto" == "Ana" + [','] + "Beto";
    SplitJoin(["Ana", "Beto"], ',');
    downloads, end := DownloadPdf(v, metrics, passLoads);
    assert LoadedPrefix(v, passLoads, 2) == 1;
    assert FileNameFor("Ana") == "certificado_Ana.pdf";
  }

  /** A three-name batch splits into exactly those three names, in order. */
  lemma ThreeNameBatch()
    ensures Split("Ana,Beto,Cid", ',') == ["Ana", "Beto", "Cid"]
  {
    JoinThree("Ana", "Beto", "Cid", ',');
    assert "Ana,Beto,Cid" == "Ana" + [','] + "Beto" + [','] + "Cid";
    SplitJoin(["Ana", "Beto", "Cid"], ',');
  }
}
