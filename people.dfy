/** The roster entry shared by the examples. Only the attributes the
    traversals and comparators read are modelled; the age is a plain value
    rather than something derived from the birthday and the current date. */
module People {

  datatype Sex = Male | Female

  /** A calendar date, ordered by year, then month, then day. */
  datatype Date = Date(year: int, month: int, day: int)

  /** `a` comes strictly before `b` in calendar order. */
  predicate Before(a: Date, b: Date)
  {
    a.year < b.year ||
    (a.year == b.year && (a.month < b.month || (a.month == b.month && a.day < b.day)))
  }

  datatype Person = Person(
    name: string,
    birthday: Date,
    gender: Sex,
    age: int,
    emailAddress: string)
}
