/** The parsed HTML the converter reads, as plain records. Building them from the
    markup (BeautifulSoup's `find_all`, `get`, `get_text`, `find`) happens outside
    the model; these records hold exactly the values the conversion asks for. */
module Html {
  import opened Wrappers

  /** A `<col>` element; `style` is its `style` attribute or "" when it has none. */
  datatype Col = Col(style: string)

  datatype Tag = Td | Th

  /** A `<td>` or `<th>`: its stripped text, its `style` attribute (or ""), its
      `bgcolor` attribute, its `colspan` as already parsed by `int(...)`, its tag, and
      whether it holds a `<b>` or an `<i>` element. */
  datatype Cell = Cell(
    text: string,
    style: string,
    bgcolor: Option<string>,
    colspan: int,
    tag: Tag,
    hasBold: bool,
    hasItalic: bool)

  /** A `<tr>`: its `style` attribute (or "") and its cells in document order. */
  datatype Row = Row(style: string, cells: seq<Cell>)

  /** A `<table>`: every `<col>` inside it and every `<tr>` inside it, in order. */
  datatype Table = Table(cols: seq<Col>, rows: seq<Row>)

  /** The document: its tables, and the text `get_text(separator='\n', strip=True)`
      extracts from it (used only when there is no table). */
  datatype Document = Document(tables: seq<Table>, text: string)
}
