/** The `teams` table that the trigram engine reads and updates. */
module Schema {

  datatype Option<+T> = None | Some(value: T)

  /** The primary key of a row; a UUID, handled as the text it travels as. */
  type Id = string

  /**
   * One row of `teams`: the display name and the nullable `grams` column.
   * The only writer of `grams` stores a duplicate-free list, so the column
   * is kept as a set and its array length is the set's cardinality.
   */
  datatype Row = Row(name: string, grams: Option<set<string>>)

  /** A snapshot of the table, keyed by primary key. */
  type Table = map<Id, Row>
}
