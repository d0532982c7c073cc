/**
 * The item resource: the `Item` record with its field constraints and
 * defaults, the stored form `ItemOut` (an item tagged with its id), and the
 * bounds on the query parameters of the listing endpoint.
 *
 * Field validation happens when an `Item` is built from a request body; the
 * store only ever sees items that passed it.
 */
module ItemModel {

  datatype Option<T> = None | Some(value: T)

  datatype Result<T, E> = Ok(value: T) | Err(error: E)

  /** An item as the client sends it: name, price, tags and active flag. */
  datatype Item = Item(nombre: string, precio: real, tags: seq<string>, activo: bool)

  /** An item as the store returns it: the record plus the id it is kept under. */
  datatype ItemOut = ItemOut(id: int, item: Item)

  /** Why a request body does not make an `Item`. */
  datatype FieldError = NombreTooShort | PrecioNotPositive

  /** Why query parameters of the listing are refused. */
  datatype QueryError = SkipNegative | LimitTooSmall | LimitTooLarge

  const DefaultSkip: int := 0
  const DefaultLimit: int := 50
  const MaxLimit: int := 200

  /** The field constraints: a name of at least one character, a strictly positive price. */
  predicate ValidItem(i: Item)
    ensures ValidItem(i) <==> FieldErrors(i.nombre, i.precio) == []
  {
    |i.nombre| >= 1 && i.precio > 0.0
  }

  /** Every constraint the given fields break, in field order. */
  function FieldErrors(nombre: string, precio: real): (errs: seq<FieldError>)
    ensures NombreTooShort in errs <==> |nombre| < 1
    ensures PrecioNotPositive in errs <==> precio <= 0.0
    ensures |errs| <= 2
  {
    (if |nombre| < 1 then [NombreTooShort] else [])
    + (if precio <= 0.0 then [PrecioNotPositive] else [])
  }

  /**
   * Builds an `Item` from a request body. `tags` and `activo` may be absent,
   * in which case they default to the empty list and `true`.
   */
  function MakeItem(nombre: string, precio: real, tags: Option<seq<string>>, activo: Option<bool>)
    : (r: Result<Item, seq<FieldError>>)
    ensures r.Ok? <==> |nombre| >= 1 && precio > 0.0
    ensures r.Ok? ==> ValidItem(r.value)
    ensures r.Ok? ==> r.value.nombre == nombre && r.value.precio == precio
    ensures r.Ok? ==> r.value.tags == (if tags.Some? then tags.value else [])
    ensures r.Ok? ==> r.value.activo == (activo.None? || activo.value)
    ensures r.Err? ==> r.error != [] && (NombreTooShort in r.error <==> |nombre| < 1)
    ensures r.Err? ==> (PrecioNotPositive in r.error <==> precio <= 0.0)
  {
    var errs := FieldErrors(nombre, precio);
    if errs != [] then Err(errs)
    else
      Ok(Item(nombre, precio,
              match tags case Some(t) => t case None => [],
              match activo case Some(a) => a case None => true))
  }

  /** Building from the fields of a valid item gives that item back. */
  lemma MakeItemRoundTrip(i: Item)
    requires ValidItem(i)
    ensures MakeItem(i.nombre, i.precio, Some(i.tags), Some(i.activo)) == Ok(i)
  {
  }

  /** The bounds of the listing's query parameters: `skip >= 0` and `1 <= limit <= 200`. */
  predicate InBounds(skip: int, limit: int)
    ensures InBounds(skip, limit) <==> CheckQuery(skip, limit) == []
  {
    0 <= skip && 1 <= limit <= MaxLimit
  }

  /** Every bound the given query parameters break. */
  function CheckQuery(skip: int, limit: int): (errs: seq<QueryError>)
    ensures errs == [] <==> 0 <= skip && 1 <= limit <= MaxLimit
    ensures SkipNegative in errs <==> skip < 0
    ensures LimitTooSmall in errs <==> limit < 1
    ensures LimitTooLarge in errs <==> limit > MaxLimit
  {
    (if skip < 0 then [SkipNegative] else [])
    + (if limit < 1 then [LimitTooSmall] else [])
    + (if limit > MaxLimit then [LimitTooLarge] else [])
  }

  /** The defaults the listing uses when a parameter is omitted are within bounds. */
  lemma DefaultsInBounds()
    ensures CheckQuery(DefaultSkip, DefaultLimit) == []
  {
  }
}
