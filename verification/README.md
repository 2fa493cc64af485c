# Stock table and rate-limiting filter of the shop backend, in Dafny

This project models two pieces of sequential logic of an e-commerce backend
written in Java with Spring.

**The `product_size` table and its repository.** Each row holds the stock
quantity of one size of one product. The repository declares every statement
on that table as SQL or JPQL text, except `findByProductId`, whose query Spring
Data derives from the method name:

- the guarded decrement `quantity - 1 ... AND quantity > 0`, which returns the
  affected-row count;
- the unguarded increment;
- the availability lookups filtered on `quantity > 0`;
- the list of sizes in stock;
- the unfiltered lookup of a key;
- the lookup and deletion of all rows of a product.

The table is a `seq<ProductSize>` in storage order. Each statement is a pure
function from a table to a new table and/or a result. Nothing in the code makes
`(productId, size)` unique, so the model allows duplicate rows for a key. The
decrement therefore returns the number of in-stock rows of the key. The
single-entity lookups return `NoRow` (Java `null`), `OneRow`, or
`NonUniqueResult`, which stands for the exception Spring Data throws when a
single-result query matches several rows. The module `StockHistory` replays
sequences of decrements and increments on one key.

**The rate-limiting filter.** The filter routes requests on `/api/login`,
`/api/register` and every path starting with `/api/admin` through a per-client
token bucket. The model covers:

- path classification;
- client-key extraction from `X-Forwarded-For`, with Java's `String.split`
  semantics including the empty-array case;
- the bucket cache as a `map<string, BucketId>` with `computeIfAbsent`
  semantics;
- the decision to forward or reject.

Buckets are identities numbered in creation order. Whether a bucket yields a
token is an oracle `grant: BucketId -> bool` passed with the request.

Files:

- `java_string.dfy` (module `JavaString`): `startsWith` and `split` on a
  one-character separator.
- `product_size_repository.dfy` (module `ProductSizeRepository`): the table, the
  WHERE clauses, and every repository statement.
- `stock_history.dfy` (module `StockHistory`): histories of decrements and
  increments.
- `rate_limiting_filter.dfy` (module `RateLimitingFilter`): the filter.

## Model

| member | source | states |
|---|---|---|
| `ProductSizeRepository.MinusOneProductBySize` | src/main/java/com/company/demo/repository/ProductSizeRepository.java:34-38 | Every row of the key with quantity > 0 loses exactly one unit. Every other row is unchanged and the row count is kept. The result is the number of in-stock rows of the key. A table with no negative quantity keeps none (no oversell). |
| `ProductSizeRepository.MinusOneFailsIffUnchanged` | src/main/java/com/company/demo/repository/ProductSizeRepository.java:37-38 | The decrement reports 0 affected rows if and only if the table is left exactly as it was (missing key or sold-out row). |
| `ProductSizeRepository.PlusOneProductBySize` | src/main/java/com/company/demo/repository/ProductSizeRepository.java:40-43 | Every row of the key gains one unit, whatever its quantity. Every other row is unchanged. Non-negativity is preserved. |
| `ProductSizeRepository.PlusOneOnAbsentKey` | src/main/java/com/company/demo/repository/ProductSizeRepository.java:42 | On a key no row carries, the increment leaves the table unchanged (silent no-op). |
| `ProductSizeRepository.MinusThenPlusRestores` | src/main/java/com/company/demo/repository/ProductSizeRepository.java:37-43 | A decrement followed by an increment on the same key restores the table if and only if every row of that key was in stock. |
| `ProductSizeRepository.UniqueKeyRoundTrip` | src/main/java/com/company/demo/repository/ProductSizeRepository.java:37-43 | On a key held by one row, the decrement returns 1 exactly when the row is in stock and 0 otherwise. A decrement that returned 1 is undone by the increment. |
| `ProductSizeRepository.FindAllSizeOfProduct` | src/main/java/com/company/demo/repository/ProductSizeRepository.java:16-17 | A size is listed if and only if some row of the product has that size and quantity > 0. Each size occurs exactly as many times as there are in-stock rows of the product with that size. |
| `ProductSizeRepository.SingleWhere` | src/main/java/com/company/demo/repository/ProductSizeRepository.java:20-25 | A single-entity query returns null when no row matches and the row when exactly one matches. It fails as non-unique exactly when two distinct rows match. |
| `ProductSizeRepository.CheckProductSizeAvailable` | src/main/java/com/company/demo/repository/ProductSizeRepository.java:24-25 | A returned row has the key and quantity > 0 and is in the table. The result is null exactly when no in-stock row has the key. It is non-unique exactly when two in-stock rows share the key. |
| `ProductSizeRepository.CheckProductSizeAvailableWithLock` | src/main/java/com/company/demo/repository/ProductSizeRepository.java:20-22 | The locking variant selects the same row, with the same key and quantity > 0 filter, as the plain availability check. |
| `ProductSizeRepository.FindByProductIdAndSizeForUpdate` | src/main/java/com/company/demo/repository/ProductSizeRepository.java:45-48 | It matches the key with no quantity filter. It returns null only when no row has the key, and returns the row when exactly one has it. It fails as non-unique exactly when two distinct rows have the key. |
| `ProductSizeRepository.SoldOutRowFoundOnlyForUpdate` | src/main/java/com/company/demo/repository/ProductSizeRepository.java:46-48 | For a sold-out single row, the availability check returns null but the lookup for update returns the row. |
| `ProductSizeRepository.FindByProductId` | src/main/java/com/company/demo/repository/ProductSizeRepository.java:32 | It returns exactly the rows with that product id, sold out or not, each as many times as it occurs in the table, and no other row. |
| `ProductSizeRepository.DeleteByProductId` | src/main/java/com/company/demo/repository/ProductSizeRepository.java:27-30 | It keeps exactly the rows of other products and removes as many rows as the product had. Looking the product up afterwards finds nothing. |
| `ProductSizeRepository.DeleteKeepsOtherProducts` | src/main/java/com/company/demo/repository/ProductSizeRepository.java:29-32 | After deleting one product, the rows of every other product are found unchanged and in the same order. |
| `StockHistory.Replay` | src/main/java/com/company/demo/repository/ProductSizeRepository.java:37-43 | Any history of decrements and increments keeps the row count and preserves non-negativity of every quantity. |
| `StockHistory.ReplayBalance` | src/main/java/com/company/demo/repository/ProductSizeRepository.java:37-43 | On a single-row key the final quantity is: initial, minus the sum of the counts the decrements returned, plus the number of increments. All other rows are untouched. |
| `StockHistory.NeverNegative` | src/main/java/com/company/demo/repository/ProductSizeRepository.java:34-38 | After every prefix of a history, the quantity of a single-row key that started non-negative is still non-negative. |
| `StockHistory.DecrementsSellAtMostStock` | src/main/java/com/company/demo/repository/ProductSizeRepository.java:37 | With n units on a single row, m consecutive decrements succeed min(n, m) times, and the quantity drops by exactly that much. |
| `JavaString.StartsWith` | src/main/java/com/company/demo/security/RateLimitingFilter.java:40 | The character-by-character `startsWith` holds exactly when the prefix is a sequence prefix of the path. |
| `JavaString.Split` | src/main/java/com/company/demo/security/RateLimitingFilter.java:61 | The split result is empty exactly when the text is non-empty and consists only of separators. Otherwise its first element is the text before the first separator, or the whole text if there is none. No element contains the separator. When the text contains a separator, the last element is non-empty (trailing empty strings are dropped). |
| `RateLimitingFilter.NewFilter` | src/main/java/com/company/demo/security/RateLimitingFilter.java:23 | A new filter starts with an empty bucket cache, which satisfies the cache invariant (every cached bucket created by the filter, no bucket shared by two clients). |
| `RateLimitingFilter.IsRateLimited` | src/main/java/com/company/demo/security/RateLimitingFilter.java:40 | A path is limited if and only if it equals `/api/login` or `/api/register` exactly, or has `/api/admin` as a prefix. |
| `RateLimitingFilter.AdminPrefixAdmitsAnyContinuation` | src/main/java/com/company/demo/security/RateLimitingFilter.java:40 | Every path that starts with `/api/admin` is limited, for example `/api/administrator`. |
| `RateLimitingFilter.ExactPathsAdmitNoContinuation` | src/main/java/com/company/demo/security/RateLimitingFilter.java:40 | Extending `/api/login` or `/api/register` by any text, for example a trailing `/`, gives a path that is not limited. |
| `RateLimitingFilter.GetClientIP` | src/main/java/com/company/demo/security/RateLimitingFilter.java:56-62 | With no `X-Forwarded-For` header the key is the remote address. With the header, the key is the untrimmed text before its first comma, or the whole header if it has no comma. Extraction fails exactly when the header consists only of commas. |
| `RateLimitingFilter.ComputeIfAbsent` | src/main/java/com/company/demo/security/RateLimitingFilter.java:42 | Afterwards the key is cached. An existing bucket is reused and the cache is left unchanged. Otherwise a bucket no other client holds is added. Entries for other keys are unchanged. |
| `RateLimitingFilter.DoFilterInternal` | src/main/java/com/company/demo/security/RateLimitingFilter.java:33-54 | An unlimited path is passed on with the cache untouched. A limited path is passed on if and only if its client's bucket grants a token, and is otherwise answered with 429, `application/json` and the fixed error body. A failed key extraction leaves the cache untouched. Buckets stay distinct per client. |
| `RateLimitingFilter.SameClientSameBucket` | src/main/java/com/company/demo/security/RateLimitingFilter.java:41-44 | A second limited request from the same client leaves the cache as the first left it. It is decided by the bucket the first request used. |
| `RateLimitingFilter.DistinctClientsDistinctBuckets` | src/main/java/com/company/demo/security/RateLimitingFilter.java:42 | Two limited requests from different clients are charged to different buckets. |

## Left out

- Pessimistic write locks, transactions and row-level locking on the repository: these concern concurrency and isolation. Each statement is modelled by its sequential effect only.
- Token-bucket arithmetic in `createNewBucket` (capacity 5, refilled by 5 every minute): this is library behaviour. Whether a bucket yields a token is an oracle parameter.
- Thread safety of the concurrent bucket map: this is concurrency. The map is a Dafny `map` updated one request at a time.
- Servlet plumbing: writing the response body and setting the status and content type are not modelled as side effects. The rejection is a value carrying the status, content type and body.
- Quantity column width: quantities are unbounded integers. A database overflow on the increment is not modelled.
- Key equality: product ids are compared as exact strings, as H2 compares them. Under a case-insensitive or trailing-space-padding collation, ids that differ only in case or trailing spaces would match the same rows; the column collation is database configuration. Null ids are not representable.
- Row order: SQL without ORDER BY gives no order, but the model returns rows in storage order.
- `String.split` is modelled for a one-character separator that is not a regular-expression metacharacter. This is the only way the filter calls it.
- JWT signing and expiry, the Spring Security configuration, and the test classes are not part of this model.
- The repository decrements by exactly one and silently affects zero rows on an unknown key. The model follows that: there is no decrement by an arbitrary amount and no not-found error.
