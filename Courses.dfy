/** The two courses the backend serves, named as clients send them. */
module Courses {

  const NeetPg: string := "NEET PG"
  const Usmle: string := "USMLE"

  predicate IsKnownCourse(course: string) {
    course == NeetPg || course == Usmle
  }
}
