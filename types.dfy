/**
 * The records the application reads from its topic files: a topic with
 * its list of words.  They carry no behaviour of their own.
 */
module Types {

  /** One vocabulary entry; only `word` is used by the quiz logic. */
  datatype Word = Word(
    word: string,
    meaning: string,
    pos: string,
    example: string,
    pronunciation: string)

  /** A topic: a named, levelled list of words. */
  datatype Topic = Topic(
    id: string,
    name: string,
    level: string,
    icon: string,
    description: string,
    words: seq<Word>)
}
