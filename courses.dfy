/** The record both pages share and the outcome of a request to the course
    endpoint, which the model receives as an input. */
module Courses {

  /** A course as the backend returns it; `id` and `credit` are JavaScript
      numbers, modelled as integers. */
  datatype Course = Course(id: int, name: string, credit: int, category: string, teacher: string)

  /** A response body, or nothing when the request threw. */
  datatype Option<T> = None | Some(value: T)

  /** Whether an awaited request resolved or threw. */
  datatype Outcome = Succeeded | Failed
}
