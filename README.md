# Budget service model

This project models the in-memory budget service of a personal-finance backend
(`src/modules/budget/service.js`). The service holds two module-level
collections:

- a fixed envelope table, seeded with one row: the `food` envelope for
  `2025-09`, planned 40000 cents, actual 12345 cents;
- a `rules` list that starts empty.

It offers two operations:

- `listEnvelopes({ month })` returns the whole table when `month` is falsy
  (absent, `null` or the empty string). Otherwise it returns the rows whose
  `month` equals the argument, in table order.
- `createRule({ priority, tests, actions, isActive })` builds a rule record
  with id `r_<Date.now()>`, defaults `isActive` to `true` through `??`,
  appends the record to `rules` and returns it.

The model has three modules:

- `Wrappers` holds the `Option` type. An absent or `null` JavaScript argument
  is `None`.
- `NumberText` models how JavaScript writes an integral Number as decimal text
  inside a template literal. It pairs that with a parser that reads the text
  back.
- `BudgetService` holds the data model and the class `Service`. The class's
  `rules` and `envelopes` fields are the two module-level arrays. The month
  filter is a function. `createRule` is a method that `modifies this`.

The `tests` and `actions` documents are modelled by the uninterpreted type
`Document`, because the service stores them without looking inside them. The
clock reading `Date.now()` is passed in as the argument `now`.

## Model

| member | source | states |
|---|---|---|
| `BudgetService.FilterByMonth` | src/modules/budget/service.js:8 | The filtered rows form a subsequence of the table, so table order is kept. Every row has the requested month. Each row of that month appears as often as it does in the table, and no other row appears. |
| `BudgetService.FilterByMonthUnique` | src/modules/budget/service.js:8 | The filter's contract determines its result exactly. Any subsequence of the table that has only rows of month `m`, each as often as the table has it, equals the filter's result. |
| `BudgetService.MonthGiven` | src/modules/budget/service.js:8 | The `month ?` test is false exactly when the month is absent, `null` or the empty string. |
| `BudgetService.Service.ListEnvelopes` | src/modules/budget/service.js:7-9 | With a falsy month (absent, `null` or `""`), the result is the whole envelope table. With a truthy month, it is exactly that month's rows in table order. It is a function, so it changes nothing: it reads only the `const` envelope table, and the rules list is never touched. |
| `BudgetService.SeededListing` | src/modules/budget/service.js:3-8 | On the seeded table, `2025-09` lists exactly the `food` row: planned 40000, actual 12345. Every other non-empty month lists nothing. |
| `BudgetService.ActiveOrDefault` | src/modules/budget/service.js:13 | `isActive ?? true` is false exactly when the argument is an explicit `false`. Absent and `null` both give `true`. |
| `BudgetService.RuleId` | src/modules/budget/service.js:12 | The id is `r_` followed by the shortest decimal text of `now`. It reads back as `now` and has no leading zero unless `now` is 0. |
| `BudgetService.RuleIdsCollide` | src/modules/budget/service.js:12 | Two ids are equal exactly when their timestamps are equal. Rules created in the same millisecond share an id, so ids are not unique. |
| `BudgetService.NewRule` | src/modules/budget/service.js:12-13 | The record carries `priority`, `tests` and `actions` verbatim. Its id is exactly `RuleId(now)`, that is `r_` followed by the timestamp's decimal text. It is inactive only for an explicit `false`. |
| `BudgetService.Service.CreateRule` | src/modules/budget/service.js:11-16 | Returns the record built from its arguments. `rules` grows by exactly that record, appended at the end, and earlier rules stay as they were. The envelope table is a `const` field, so it cannot change. Given a priority of at least 1 (what the route's validation requires) and a store where every rule already had one, every stored rule still has a priority of at least 1. |
| `BudgetService.Service.constructor` | src/modules/budget/service.js:2-5 | The state at module load: no rules, and the one-row seeded envelope table. |
| `NumberText.Digits` | src/modules/budget/service.js:12 | The decimal text of the timestamp inside the id is non-empty. It holds only digits and has no leading zero. |
| `NumberText.ParseDigits` | src/modules/budget/service.js:12 | Parsing the decimal text of `n` gives back `n`. |
| `NumberText.DigitsInjective` | src/modules/budget/service.js:12 | Two numbers have the same decimal text exactly when they are equal. |

## Left out

- Asynchrony: both service functions are `async`. The model treats them as synchronous calls that cannot fail.
- Aliasing: with a falsy month, `listEnvelopes` returns the module's own array, which a caller could then mutate. The model returns a sequence value, so this is not captured.
- `Service.CreateRule`: returns a copy of the stored record, whereas JavaScript returns the same object it pushed. The model does not capture later mutation through that reference.
- `Date.now()` is not modelled as a clock. The timestamp `now` is a non-negative argument, so a clock set before 1970 (which would give an id such as `r_-5`) is not covered.
- `NumberText.Digits`: matches JavaScript's rendering only for integers below 10^21. Above that JavaScript switches to exponent notation, but `Date.now()` never exceeds 8.64·10^15.
- Argument types: `month`, `priority` and `isActive` are taken as a string, an integer and a boolean, which the route's validation (src/modules/budget/routes.js:10-12, 19-25) guarantees. The service's behaviour for other JavaScript values is not modelled. The route's range check on `priority` is used only as a hypothesis in `Service.CreateRule`.
- The controller (src/modules/budget/controller.js) and the Express/Joi routing: these are request plumbing over libraries that are not part of this model. The controller's `|| null` mapping of the month is subsumed, because the service's own truthiness test already treats `""` like an absent month.
- The routes also name accounts, transactions, merchants, splits and tags (src/modules/budget/routes.js:29-89). No service code implements them, so they are not modelled. Rules are only stored, never evaluated.
- The contact-form/mailing-list feature, the Prisma seed script, configuration, error handling and server start-up: every outcome there depends on a database, SMTP, the environment or the process, none of which is part of this model.
