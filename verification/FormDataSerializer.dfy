/** `serialize_multipart_formdata` and what the header parser makes of the lines it writes. */
module FormDataSerializing {
  import opened Text

  datatype Item = Item(name: string, content: string, filename: string, contentType: string)

  // The fixed texts of the two header lines.
  function DispositionName(): string { "Content-Disposition" }
  function FormDataName(): string { "form-data;" }
  function NameKey(): string { "name" }
  function FilenameKey(): string { "filename" }
  function TypeName(): string { "Content-Type" }

  /** `key="val"` */
  function Quoted(key: string, val: string): string {
    key + "=\"" + val + "\""
  }

  /** What follows `form-data; `. */
  function Parameters(item: Item): string {
    if item.filename == "" then Quoted(NameKey(), item.name)
    else Quoted(NameKey(), item.name) + "; " + Quoted(FilenameKey(), item.filename)
  }

  function DispositionLine(item: Item): string {
    DispositionName() + ": " + (FormDataName() + " " + Parameters(item))
  }

  function TypeLine(item: Item): string {
    TypeName() + ": " + item.contentType
  }

  /** The lines, written out. */
  lemma LinesAre(item: Item)
    ensures TypeLine(item) == "Content-Type: " + item.contentType
    ensures item.filename == "" ==> DispositionLine(item) == "Content-Disposition: form-data; " + Quoted("name", item.name)
    ensures item.filename != "" ==>
              DispositionLine(item) ==
              "Content-Disposition: form-data; " + (Quoted("name", item.name) + "; " + Quoted("filename", item.filename))
  {
    hide Quoted;
    var parameters := Parameters(item);
    var named, filed := Quoted("name", item.name), Quoted("filename", item.filename);
    assert parameters == if item.filename == "" then named else named + "; " + filed;
    hide Parameters;
    assert "Content-Disposition" + ": " + ("form-data;" + " " + parameters) == "Content-Disposition: form-data; " + parameters;
  }

  /** The header block with its empty line. */
  function HeaderBlock(item: Item): string {
    DispositionLine(item) + CRLF + if item.contentType == "" then CRLF else TypeLine(item) + CRLF + CRLF
  }

  function ItemText(item: Item, boundary: string): string {
    DASH + boundary + CRLF + HeaderBlock(item) + item.content + CRLF
  }

  function ItemTexts(items: seq<Item>, boundary: string): string {
    if items == [] then ""
    else ItemTexts(items[..|items| - 1], boundary) + ItemText(items[|items| - 1], boundary)
  }

  function Serialized(items: seq<Item>, boundary: string): string {
    ItemTexts(items, boundary) + DASH + boundary + DASH + CRLF
  }

  lemma ItemTextsStep(items: seq<Item>, boundary: string, i: nat)
    requires i < |items|
    ensures ItemTexts(items[..i + 1], boundary) == ItemTexts(items[..i], boundary) + ItemText(items[i], boundary)
  {
    hide ItemText;
    assert items[..i + 1][..i] == items[..i];
  }

  method Serialize(items: seq<Item>, boundary: string) returns (body: string)
    ensures body == Serialized(items, boundary)
  {
    hide HeaderBlock;
    hide ItemText;
    hide ItemTexts;
    body := "";
    assert ItemTexts(items[..0], boundary) == "" by { ItemTextsEmpty(boundary); }
    for i := 0 to |items|
      invariant body == ItemTexts(items[..i], boundary)
    {
      ItemTextsStep(items, boundary, i);
      var begin := ItemBegin(items[i], boundary);
      ItemTextSplit(items[i], boundary, body);
      body := body + begin;
      body := body + (items[i].content + CRLF);
    }
    assert items[..|items|] == items;
    body := Finish(body, boundary);
  }

  lemma ItemTextsEmpty(boundary: string)
    ensures ItemTexts([], boundary) == ""
  {
  }

  lemma ItemTextSplit(item: Item, boundary: string, body: string)
    ensures body + (DASH + boundary + CRLF + HeaderBlock(item)) + (item.content + CRLF)
         == body + ItemText(item, boundary)
  {
    hide HeaderBlock;
  }

  method Finish(body0: string, boundary: string) returns (body: string)
    ensures body == body0 + DASH + boundary + DASH + CRLF
  {
    body := body0 + (DASH + boundary + DASH + CRLF);
  }

  method ItemBegin(item: Item, boundary: string) returns (body: string)
    ensures body == DASH + boundary + CRLF + HeaderBlock(item)
  {
    hide DispositionName;
    hide FormDataName;
    hide NameKey;
    hide FilenameKey;
    hide TypeName;
    body := DASH + boundary + CRLF;
    ghost var open := body;
    var line := DispositionName() + ": " + (FormDataName() + " " + Quoted(NameKey(), item.name));
    body := body + line;
    if item.filename != "" {
      body := body + ("; " + Quoted(FilenameKey(), item.filename));
    }
    assert body == open + DispositionLine(item);
    body := body + CRLF;
    if item.contentType != "" {
      body := body + (TypeLine(item) + CRLF);
    }
    body := body + CRLF;
    assert body == open + HeaderBlock(item);
  }
}
