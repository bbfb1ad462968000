/** The ASP.NET action results the controllers return. */
module Http {

  /**
   * Ok(body) is 200 with a body, OkEmpty is 200 without one (`Ok()`),
   * Created(body) is 201 from `CreatedAtRoute`, NoContent is 204,
   * NotFound is 404 and Unauthorized is 401.
   */
  datatype Response<+T> =
    | Ok(body: T)
    | OkEmpty
    | Created(body: T)
    | NoContent
    | NotFound
    | Unauthorized
}
