# Soft-delete mixin and token-lifetime parsing, modelled in Dafny

The portfolio backend is mostly Django configuration. Two pieces of it have
behaviour of their own, and this project models both and proves properties of them.

- **`SoftDeleteMixin`** (`soft_delete.dfy`, module `SoftDelete`). This mixin replaces
  physical deletion with a reversible flag. A record carries `is_deleted`
  (default false), `deleted_at` (nullable, default null) and the host's
  `updated_at`. `soft_delete` sets the flag, stamps `deleted_at` and
  `updated_at`, then saves the record. `soft_undelete` clears the flag and the
  stamp, stamps `updated_at`, then saves.
  - The class `SoftDeleteMixin<T>` has these fields, and its methods update them in place.
  - `data: T` stands for the host model's own columns.
  - `save()` is a ghost snapshot `stored` of the columns plus a ghost write counter `saves`.
  - The pure functions `Created`, `Deleted` and `Undeleted` give the state each
    operation produces, and the methods are proved to produce exactly that.
  - `Replay` applies any series of calls, so that properties of whole
    delete/undelete cycles can be stated and proved by induction.
- **`parse_timedelta`** (`settings.dfy`, module `Settings`). This function
  normalises a configured JWT token lifetime.
  - A `timedelta` passes through unchanged.
  - `None` gives the default, and so does text the parser rejects.
  - Accepted text gives `timedelta(seconds=n)`.
  - The parser (the `pytimeparse` library) is the parameter `parse`.
  - `SimpleJwt` builds the `SIMPLE_JWT` lifetimes from it, with defaults of 60 minutes and 1 day.

Clock readings are parameters. `soft_delete` reads the clock twice with
`timezone.now()`, once for `deleted_at` (utils/model_mixins/soft_delete_mixin.py:11)
and once for `updated_at` (line 12), so `SoftDelete` takes two readings.

Python's `timedelta(seconds=n)` raises `OverflowError` unless the day part
`floor(n / 86400)` lies in -999999999..999999999, that is unless
`MinSeconds <= n <= MaxSeconds`. `parse_timedelta` does not catch it, so accepted text
with a huge number of seconds makes `parse_timedelta` raise. The model keeps
this as `Failure(OverflowError)`.

`Wrappers` (`wrappers.dfy`) holds the `Option` and `Result` datatypes.

## Model

| member | source | states |
|---|---|---|
| `SoftDelete.Created` | utils/model_mixins/soft_delete_mixin.py:6-7 | a new record is not deleted, has no deletion timestamp, and satisfies `is_deleted <==> deleted_at != null` |
| `SoftDelete.Deleted` | utils/model_mixins/soft_delete_mixin.py:9-12 | from any state, `soft_delete` leaves the record deleted and consistent, with `deleted_at` equal to the first clock reading, `updated_at` equal to the second, and the host's columns untouched |
| `SoftDelete.Undeleted` | utils/model_mixins/soft_delete_mixin.py:15-18 | from any state, `soft_undelete` leaves the record live and consistent (so `deleted_at` is null), with `updated_at` equal to the fresh reading and the host's columns untouched |
| `SoftDelete.DeleteThenUndelete` | utils/model_mixins/soft_delete_mixin.py:9-19 | round trip: from any state, deleting and then undeleting gives the same state as undeleting alone (flag cleared, stamp null); for a consistent live record that is the original record with `updated_at` replaced by the undelete's reading |
| `SoftDelete.UndeleteIdempotent` | utils/model_mixins/soft_delete_mixin.py:16-18 | a second `soft_undelete` gives the same state as one call made with the later reading, so the two flag fields are unchanged by it |
| `SoftDelete.DeleteOverwritesTimestamp` | utils/model_mixins/soft_delete_mixin.py:11 | `soft_delete` is not idempotent: a second call replaces `deleted_at` with its own reading, which differs from the first when the readings differ and is strictly later when the clock moved on |
| `SoftDelete.ReplayLastCallDecides` | utils/model_mixins/soft_delete_mixin.py:9-19 | after any non-empty series of calls from any state, the record is consistent, is deleted exactly when the last call was `soft_delete` (then carrying that call's reading), and `updated_at` is the last call's reading |
| `SoftDelete.ReplayPreserves` | utils/model_mixins/soft_delete_mixin.py:9-19 | any number of delete/undelete cycles keeps the host's columns and keeps a consistent record consistent |
| `SoftDelete.ReplayMonotoneClock` | utils/model_mixins/soft_delete_mixin.py:11-12 | if the clock never goes backwards, `updated_at` never decreases over a series of calls, and `deleted_at` is never later than `updated_at` |
| `SoftDelete.SoftDeleteMixin.constructor` | utils/model_mixins/soft_delete_mixin.py:5-7 | a new object has the column defaults `is_deleted = false` and `deleted_at = null`, and has not been saved |
| `SoftDelete.SoftDeleteMixin.Save` | utils/model_mixins/soft_delete_mixin.py:13 | `save()` writes the full in-memory row to the store and counts one write |
| `SoftDelete.SoftDeleteMixin.SoftDelete` | utils/model_mixins/soft_delete_mixin.py:9-13 | has no precondition. Its new state is `Deleted` of the old state, with the flag set, `deleted_at` and `updated_at` from the two readings, and the host's columns unchanged. There is exactly one save, and the stored row equals the final state |
| `SoftDelete.SoftDeleteMixin.SoftUndelete` | utils/model_mixins/soft_delete_mixin.py:15-19 | has no precondition. Its new state is `Undeleted` of the old state, with the flag cleared, `deleted_at` null, `updated_at` the reading, and the host's columns unchanged. There is exactly one save, and the stored row equals the final state |
| `Settings.FromSeconds` | core/settings/base.py:170 | `timedelta(seconds=n)` succeeds exactly when the day part `floor(n / 86400)` lies in -999999999..999999999, Python's own check, and then has length `n`; otherwise it is OverflowError (the body's `MinSeconds..MaxSeconds` bound is proved to agree with the day-part rule) |
| `Settings.ParseTimedelta` | core/settings/base.py:162-170 | it fails (OverflowError) exactly when the parser accepts the text with an out-of-range number. Otherwise the result is the input `timedelta`, the default, or the parsed number of seconds |
| `Settings.TimedeltaPassesThrough` | core/settings/base.py:163-164 | a `timedelta` input is returned unchanged, and the default is ignored |
| `Settings.DefaultOnlyOnFallBack` | core/settings/base.py:165-169 | `None` and text the parser rejects give the default, and the default influences the result in no other case |
| `Settings.AcceptedTextGivesParsedSeconds` | core/settings/base.py:167-170 | text the parser accepts gives a duration of exactly the parsed seconds, or OverflowError when no `timedelta` is that long |
| `Settings.ZeroSecondsIsNotAFallBack` | core/settings/base.py:168-170 | a parse of zero seconds gives a zero-length duration, not the default, because the test is `is None` |
| `Settings.ParseTimedeltaIdempotent` | core/settings/base.py:162-170 | feeding a result back in returns it unchanged, whatever the new default |
| `Settings.SimpleJwt` | core/settings/base.py:174-181 | the access and refresh lifetimes are the parsed seconds, or 3600 s and 86400 s when the parser rejects the text. Loading fails exactly when either lifetime overflows |

## Left out

- Persistence failures in `save()`: Django's ORM and the database are not modelled. `Save` always succeeds. When a real write fails, the in-memory columns have already changed while the store has not.
- Concurrent soft-delete and undelete on separate copies of one record (last write wins): the model has no concurrency.
- The host model's own `save()` logic, such as an `auto_now` on `updated_at`, is not part of this model. `updated_at` is the value the mixin assigns.
- The clock (`timezone.now()`): its readings are method parameters, and its monotonicity is only a lemma hypothesis.
- The internals of `pytimeparse.parse`: it is the parameter `parse`. Float results (fractional seconds) are not modelled; only whole seconds are.
- `ParseTimedelta`: only accepts a `timedelta`, `None` or text. Other Python values would reach `parse` and fail inside it, and the model does not cover them.
- `SimpleJwt`: takes the environment variables' text as parameters. The behaviour of reading the environment (`env(...)`, which raises when a variable is unset) is not part of this model.
- The rest of `core/settings/base.py` is declarative configuration or environment I/O: installed apps, middleware, DRF, CORS, storage, localisation, Sentry's `sentry_sdk.init`.
- `core/urls/api.py` and `apps/account/api/v1/urls.py` are routing glue that only registers framework views, and are not part of this model.
