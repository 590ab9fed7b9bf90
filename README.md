# Book catalogue store — a Dafny model

The book catalogue's REST server keeps its books in one in-memory list of
records, each with an integer `id`, a `title`, an `author` and an optional
`description`. It starts with five seed records. It offers five operations
over the list:

- a linear search for the first record with a given id;
- create, which appends a record unless its id is already stored (400);
- read all, and read one by id (404 when absent);
- update by id, which overwrites the found record in place (404 when absent);
- delete by id, which removes the found record (404 when absent).

`backend.dfy` holds one module, `Backend`. The store is the class
`BookStore`, whose field `books: seq<Book>` stands for the list. Each
operation is a method that returns either the record or an `HttpError`
with the status code and detail message the server raises. Each
mutating method states exactly what `books` becomes. The pure functions
`FirstIndex`, `IndexOf` and `RemoveAt` specify the search, removal by value
and the remaining list. The lemmas state what the operations promise
together.

Some points of the model:

- **Search result.** The search returns a reference to the stored record.
  The model returns that record's position in `books` (`Option<nat>`).
  Update and delete act on that position.
- **Update replaces every field, the id too.** The update merges the request
  body, with all four fields, into the found record. So every field is
  replaced, and an absent description becomes none. If the body's id differs
  from the path id, the record is re-keyed. This can leave two records with
  the same id. `UpdateKeepsUniqueIff` states exactly when ids stay distinct.
  `UpdateCanDuplicateIds` shows a duplicate arising from the seed records.
  Because the server never enforces id uniqueness, the class has no
  uniqueness invariant. Uniqueness is stated as "preserved if it held before"
  wherever the operation does preserve it.
- **Delete removes by value.** The delete removes the first list element
  *equal* to the found record. `RemoveTakesFoundRecord` proves that this
  element is the one the search found.

## Model

| member | source | states |
|---|---|---|
| `Backend.FirstIndex` | Backend/main.py:59-63 | the result is the position of the first record, in list order, whose id is `k`: earlier records all have other ids. The result is `None` exactly when no record has id `k`. |
| `Backend.BookStore.FindBook` | Backend/main.py:59-63 | the loop returns the position of the first record with the id, and `None` when none has it. Both agree with `FirstIndex`. |
| `Backend.BookStore.constructor` | Backend/main.py:17-48 | the store starts with the five seed records, whose ids are pairwise distinct |
| `Backend.SeedBooks` | Backend/main.py:17-48 | there are five seed records, with pairwise distinct ids |
| `Backend.BookStore.CreateBook` | Backend/main.py:69-73 | if the id is already stored: error 400 and the store is unchanged. Otherwise the record is appended at the end, earlier records keep their places, and the record is returned. Distinct ids stay distinct either way. After success, a search for the id finds the new record at the end. |
| `Backend.BookStore.GetBooks` | Backend/main.py:77-78 | returns the whole list, in store order, and changes nothing |
| `Backend.BookStore.GetBook` | Backend/main.py:82-86 | error 404 exactly when no record has the id. Otherwise returns the record the search finds, which is in the store and carries the id. Changes nothing. |
| `Backend.BookStore.UpdateBook` | Backend/main.py:90-95 | missing id: error 404 and the store is unchanged. Otherwise the first record with the id is replaced at its position by the body (id included). The length and all other records are unchanged, and the body is returned. With distinct ids before, ids stay distinct exactly when the body keeps the path id or brings an unused id. |
| `Backend.BookStore.DeleteBook` | Backend/main.py:99-104 | missing id: error 404 and the store is unchanged. Otherwise removes exactly the record the search found and returns it. The others keep their relative order, and the multiset of records loses just that one. With distinct ids, distinct ids are kept and the id is no longer present. |
| `Backend.IndexOf` | Backend/main.py:103 | removal by value takes out the first element equal to the record: earlier elements differ from it |
| `Backend.RemoveAt` | Backend/main.py:103 | the list after the removal is one shorter. Elements before the position are unchanged; those after it shift down by one. |
| `Backend.RemoveTakesFoundRecord` | Backend/main.py:100-103 | removing the found record by value removes the element at the position the search returned |
| `Backend.AppendFreshKeepsUnique` | Backend/main.py:70-72 | appending a record whose id is absent keeps ids pairwise distinct |
| `Backend.CreatedIsFound` | Backend/main.py:70-73 | after appending a record with a fresh id, a search for that id finds it, at the last position |
| `Backend.RemoveAtKeepsUnique` | Backend/main.py:103 | removing one record keeps ids pairwise distinct |
| `Backend.RemoveAtMultiset` | Backend/main.py:103-104 | the records before removal are those after it plus the removed one |
| `Backend.DeletedIsGone` | Backend/main.py:99-104 | with distinct ids, no record with the id is left after the found record is removed |
| `Backend.UpdateKeepsUniqueIff` | Backend/main.py:91-94 | with distinct ids, overwriting the found record keeps them distinct exactly when the new id equals the path id or is used by no record |
| `Backend.UpdateSameIdIsFound` | Backend/main.py:91-95 | an update that keeps the id leaves the updated record where a search for that id finds it |
| `Backend.UpdateRekeyHidesOldId` | Backend/main.py:94 | with distinct ids, an update whose body has another id leaves no record with the path id |
| `Backend.UpdateCanDuplicateIds` | Backend/main.py:94 | on the seed records, updating id 1 with a body whose id is 2 leaves two records with id 2 |

## Left out

- The HTTP layer is not modelled: routing, the CORS middleware (Backend/main.py:6-14), and request parsing and response serialisation. Only the status code and detail of each raised error are kept, as `HttpError` values.
- Concurrent or overlapping requests are not modelled. Each operation is one atomic step on the store.
- Aliasing is not modelled. The list the read-all operation returns, and the record the search returns, are references into the store in the server. The model returns values.
- Python integers and strings become Dafny's unbounded `int` and `seq<char>`. The model has no size limits and no encoding.
- The browser front end (Frontend/script.js) is not part of this model. It covers rendering, the edit toggle, input checks, timestamp ids and the fetch calls: it is user-interface and network glue around these five operations.
