/** The request payloads and the response shapes the endpoints and the cache use. */
module Schemas {
  import opened Models

  /** Body of POST/PATCH on a menu. */
  datatype MenuCreate = MenuCreate(title: string, description: string)

  /** Body of POST/PATCH on a submenu. */
  datatype SubmenuCreate = SubmenuCreate(title: string, description: string)

  /** Body of POST/PATCH on a dish; `price` is taken as the client wrote it. */
  datatype DishCreate = DishCreate(title: string, description: string, price: string)

  /** A menu with the number of its submenus and of the dishes under them. */
  datatype MenuWithDetails = MenuWithDetails(
    id: Id, title: string, description: string, submenusCount: nat, dishesCount: nat)

  /** A submenu with the number of its dishes. */
  datatype SubmenuWithDishCount = SubmenuWithDishCount(
    id: Id, title: string, description: string, dishesCount: nat)

  /** A dish as the read endpoints render it. */
  datatype DishScheme = DishScheme(id: Id, title: string, description: string, price: string)

  /** The ids of a list of rows, in order. */
  function Ids<T>(rows: seq<T>, id: T -> Id): (ids: seq<Id>)
    ensures |ids| == |rows| && forall i :: 0 <= i < |rows| ==> ids[i] == id(rows[i])
  {
    seq(|rows|, i requires 0 <= i < |rows| => id(rows[i]))
  }

  /** The argument of the `is_*_exists` checks: an id or a title, told apart by its type. */
  datatype UniqueField = IdField(id: Id) | TitleField(title: string)

  /** What an endpoint answers: a status with a body, or an error status with
      its `detail`. */
  datatype Response<T> = Ok(status: nat, body: T) | HttpError(status: nat, detail: string)

  /** The answer to an exception nothing catches. */
  const ServerError: string := "Internal Server Error"
}
