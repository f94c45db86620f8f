/** The records the highlight engine reads and produces (packages/vue-pdf/src/components/types.ts). */
module Types {

  /** One pdf.js text item as the engine sees it: its text and whether the
      text layer ends the line after it. */
  datatype TextItem = TextItem(str: string, hasEOL: bool)

  /** HighlightOptions; an absent flag is `false`. `ignoreSpecialChars` and
      `customSpecialChars` are part of the record but the engine never reads them. */
  datatype HighlightOptions = HighlightOptions(
    ignoreCase: bool,
    completeWords: bool,
    ignoreSpecialChars: bool,
    customSpecialChars: seq<string>)

  /** One result of the global regular-expression scan: the `[index, length, text]` triple. */
  datatype RawMatch = RawMatch(index: nat, length: nat, text: string)

  /** A position inside the text layer: item number and character offset in that item. */
  datatype DivPosition = DivPosition(idx: nat, offset: int)

  /** The caller's identity for a query: a string or a number. */
  datatype QueryKey = KeyString(s: string) | KeyNumber(n: int)

  /** A query after normalisation: `{ keyword, key }`. */
  datatype Query = Query(keyword: string, key: QueryKey)

  /** The engine's output record (`Match`). */
  datatype Match = Match(
    start: DivPosition,
    end: DivPosition,
    str: string,
    index: nat,
    key: QueryKey,
    keyword: string,
    isMultiDivByLineBreak: bool,
    isMultiDivSameLine: bool)

  datatype Option<T> = None | Some(value: T)

  /** The result of a computation that the source may never finish:
      `Diverges` stands for a loop that never exits. */
  datatype Outcome<T> = Done(value: T) | Diverges
}
