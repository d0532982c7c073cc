# In-memory item store of the FastAPI CRUD service

This project models the item store behind the service's `/items` endpoints.
The store is a process-wide dictionary `_db` from integer id to `Item`, plus
an id counter `_id_seq` that starts at 1. The model covers:

- **the `Item` record**: its field constraints (`nombre` at least one
  character long, `precio > 0`) and its defaults (`tags` empty, `activo`
  true);
- **the five operations on the table**, without their HTTP routes:
  - `crear_item`: draws the next id and inserts;
  - `obtener_item`: a lookup that can fail with not-found;
  - `actualizar_item`: a whole-record replace that can fail with not-found;
  - `eliminar_item`: a key removal that can fail with not-found;
  - `listar_items`: a case-insensitive name filter followed by an
    offset/limit window.

Python dictionaries iterate in insertion order. Assigning to a key that is
already present keeps that key's position. The model therefore keeps the
dictionary as a `map<int, Item>` together with the keys in insertion order.

Files:

- `items.dfy` (module `ItemModel`): `Item`, `ItemOut` (an item tagged with
  its id), `Option` and `Result`. It also holds the field validation that
  turns a request body into an `Item` (`MakeItem`) and the bounds on the
  listing's query parameters (`CheckQuery`).
- `text_match.dfy` (module `TextMatch`): lower-casing and the substring test
  `q.lower() in nombre.lower()`. The substring test's contract says it holds
  exactly when the query occurs at some index.
- `listing.dfy` (module `Listing`): the filter (the list comprehension) and
  the window (the slice `items[skip:skip + limit]`), on values.
- `item_table.dfy` (module `ItemTable`): the table invariant on values, and
  one lemma per change of the table giving its effect on the ordered entries.
- `item_store.dfy` (module `InMemoryStore`): class `ItemStore`. Its fields
  are `db`, `order` and `nextId`, plus a ghost set of issued ids. `Create`,
  `Update` and `Delete` are methods that change the fields in place. `Get`
  and `List` are functions that only read them. Each operation's not-found
  error is a `Result` value.

The table invariant (`ItemTable.TableInv`, kept by every operation) says:

- the counter is at least 1;
- every key is below the counter;
- `order` lists exactly the keys of `db`, in ascending order;
- every stored item satisfies the field constraints.

So insertion order is ascending id order. Ids are never handed out twice:
`Create` returns an id outside the issued set and adds it to the set, and
`Delete` does not shrink the set.

## Model

| member | source | states |
|---|---|---|
| `ItemModel.ValidItem` | main.py:19-21 | an item is valid exactly when its fields raise no field error: `nombre` non-empty and `precio > 0` |
| `ItemModel.FieldErrors` | main.py:19-21 | reports a too-short `nombre` exactly when it is empty, and a non-positive `precio` exactly when `precio <= 0` |
| `ItemModel.MakeItem` | main.py:17-25 | an item is built exactly when `nombre` is non-empty and `precio > 0`; the built item keeps the given fields, with `tags` defaulting to empty and `activo` to true; otherwise the error list is non-empty and names each broken constraint |
| `ItemModel.MakeItemRoundTrip` | main.py:17-25 | rebuilding a valid item from its own fields yields that item |
| `ItemModel.InBounds` | main.py:59-61 | the listing's parameters are in bounds exactly when checking them reports no error |
| `ItemModel.CheckQuery` | main.py:59-61 | the listing's parameters are accepted exactly when `skip >= 0` and `1 <= limit <= 200`, and each broken bound is reported |
| `ItemModel.DefaultsInBounds` | main.py:59-61 | the defaults `skip = 0`, `limit = 50` are accepted |
| `TextMatch.LowerChar` | main.py:71 | the result is never an upper-case ASCII letter; A-Z map to a-z and every other character is kept |
| `TextMatch.Lower` | main.py:71 | lower-casing keeps the length and lower-cases each character in place |
| `TextMatch.LowerIdempotent` | main.py:71 | lower-casing an already lower-cased string changes nothing |
| `TextMatch.Occurs` | main.py:71 | the scanning substring test `pat in text` holds exactly when the pattern occurs at some index of the text (both directions) |
| `TextMatch.EmptyOccurs` | main.py:71 | the empty query occurs in every name |
| `TextMatch.ContainsIgnoringCase` | main.py:71 | holds exactly when the lower-cased query occurs at some index of the lower-cased name |
| `TextMatch.QueryCaseIrrelevant` | main.py:71 | lower-casing the query first does not change the outcome of the search |
| `Listing.Matches` | main.py:71 | an entry passes the filter exactly when there is no query, or the lower-cased query occurs at some index of the lower-cased name |
| `Listing.Filter` | main.py:65-73 | the filtered list is no longer than the input, and everything in it comes from the input and passes the name filter |
| `Listing.FilterKeepsMatches` | main.py:65-73 | every entry that passes the name filter is kept (the converse of the filter's contract) |
| `Listing.FilterWithoutQuery` | main.py:71 | without `q` every entry is kept, in order |
| `Listing.FilterEmptyQuery` | main.py:71 | with `q` equal to the empty string every entry is kept, in order |
| `Listing.FilterAscending` | main.py:65-73 | filtering keeps ids ascending, so the output stays in insertion order |
| `Listing.Slice` | main.py:75 | the slice `s[lo:hi]` with bounds clamped to the length: its length, and element `k` is `s[lo + k]` |
| `Listing.Window` | main.py:75 | the page holds at most `limit` elements, is empty when `skip` is at or past the end, otherwise holds `min(limit, n - skip)` elements, and element `k` is `s[skip + k]` |
| `Listing.WindowOfAscending` | main.py:75 | a page holds entries of the list only, and keeps their ids ascending |
| `Listing.WindowsTile` | main.py:75 | the page `[skip, skip + a)` followed by the page `[skip + a, skip + a + b)` is the page `[skip, skip + a + b)` |
| `ItemTable.TableInv` | main.py:37-39 | under the table invariant the counter's next value is neither a key nor in the order, so the next insert cannot overwrite an entry |
| `ItemTable.EntriesOf` | main.py:67-69 | the entries follow the dictionary order; entry `i` carries key `order[i]` as its id and the item stored under that key |
| `ItemTable.RemoveKey` | main.py:125 | the order without the deleted key keeps exactly the other keys |
| `ItemTable.DropId` | main.py:125 | the entries without the deleted id keep exactly the other entries |
| `ItemTable.Replace` | main.py:111 | the same ids in the same positions; the entry under the updated id carries the new item, and every other entry is unchanged |
| `ItemTable.EmptyTable` | main.py:37-39 | the empty dictionary with the counter at 1 satisfies the table invariant |
| `ItemTable.EntriesAscending` | main.py:37-39 | under the invariant the entries come out in ascending id order; each id lies in `[1, next)` and maps to the entry's item |
| `ItemTable.CreateStep` | main.py:83-85 | the counter's value is not a key; inserting under it keeps the invariant with the counter advanced; the table grows by one; the new entry is appended last and the others are unchanged |
| `ItemTable.UpdateStep` | main.py:111 | overwriting an existing key keeps the invariant and the size; the entry keeps its position and only its item changes |
| `ItemTable.RemoveKeyIncreasing` | main.py:125 | removing a key from an ascending order keeps it ascending |
| `ItemTable.EntriesOfRemoveKey` | main.py:125 | the entries read along the shortened order are the old entries without the deleted id, in the same order |
| `ItemTable.DeleteStep` | main.py:119-127 | deleting an existing key keeps the invariant and the counter; the table shrinks by one; the other entries keep their items and relative order |
| `ItemTable.EntriesCount` | main.py:37 | the number of entries equals the number of keys in the dictionary |
| `InMemoryStore.ItemStore.Valid` | main.py:37-39 | under the store invariant every stored key was issued by the counter and the counter's next value was not |
| `InMemoryStore.ItemStore.Contents` | main.py:65-69 | the entries number as many as the keys, come in ascending id order, and each is the item stored under its id, with an id that was issued |
| `InMemoryStore.ItemStore.constructor` | main.py:37-39 | the store starts empty, with the counter at 1 and nothing issued |
| `InMemoryStore.ItemStore.Get` | main.py:93-99 | fails with NotFound exactly when the id is absent; otherwise returns the stored item tagged with the requested id |
| `InMemoryStore.ItemStore.Create` | main.py:81-87 | returns the item tagged with the counter's old value. That id was never issued and is above every stored key. The counter advances by one and the item is stored under the id. The table grows by exactly one, with the new entry last and all others unchanged. A following lookup returns the item |
| `InMemoryStore.ItemStore.Update` | main.py:105-113 | on an absent id: NotFound, with table, order and counter unchanged. On a present id: the whole record is replaced, the id keeps its position, the other entries and the counter are unchanged, and a following lookup returns the new record |
| `InMemoryStore.ItemStore.Delete` | main.py:119-127 | on an absent id: NotFound, with nothing changed. On a present id: exactly that key goes, the other entries keep their items and order, and the counter and issued ids are unchanged. Either way a following lookup fails with NotFound |
| `InMemoryStore.ItemStore.List` | main.py:55-75 | under the query bounds: the elements `[skip, skip + limit)` of the filtered entries. That is at most `limit` items, none when `skip` is at or past the filtered length, and otherwise `min(limit, n - skip)` items. Each item passes the name filter and is the stored item under its id. Ids ascend (insertion order) |

## Left out

- HTTP routing is not modelled: the decorators, `HTTPException` and its status codes (including the 201 on the lookup route), and JSON serialisation. Not-found is the `NotFound` value of a `Result`.
- The health endpoint is not modelled; it returns a constant.
- Pydantic's request parsing and type coercion are not modelled. Only the two field constraints and the two defaults are (`MakeItem`). `Create` and `Update` require a valid item because every `Item` instance passed those checks.
- `InMemoryStore.ItemStore.List` requires `skip >= 0` and `1 <= limit <= 200` because FastAPI refuses other values before the handler runs (`CheckQuery` models that refusal). Python slicing with negative bounds is therefore not modelled.
- `precio` is a Python float, modelled as a `real`. NaN, infinities and rounding are not modelled; only the `> 0` check is used.
- `TextMatch.Lower`: lower-cases ASCII `A`-`Z` only. Python's `str.lower()` also folds non-ASCII letters, and the model assumes names and queries are ASCII for case-insensitivity.
- `ItemModel.MakeItem`: a Dafny `char` is a Unicode scalar value, so the length constraint counts what pydantic counts. The one exception is a Python string holding a lone surrogate, which a Dafny string cannot hold.
- Concurrency is not modelled; the handlers take no lock and each operation is modelled as atomic.
- The document-database variant of the store is not part of this model; it is not in `main.py`.
