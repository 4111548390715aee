/** The learning-history store: a finite map from the composite key
    (user, word) to the record, plus the set of word identifiers the catalog
    holds, which the store's foreign key on the word checks on every write. */
module HistoryRepository {
  import opened Common
  import opened LearningHistory

  /** The composite primary key of a history row. */
  datatype Key = Key(userId: UserId, wordId: WordId)

  function KeyOf(h: History): Key
  {
    Key(h.userId, h.wordId)
  }

  /** The table of histories, and the words a history may refer to. At most
      one row per key holds by construction. */
  datatype Store = Store(rows: map<Key, History>, catalog: set<WordId>)

  /** Every row sits under its own key. */
  predicate KeysConsistent(s: Store)
  {
    forall k :: k in s.rows ==> KeyOf(s.rows[k]) == k
  }

  /** Every row refers to a word of the catalog. */
  predicate RowsInCatalog(s: Store)
  {
    forall k :: k in s.rows ==> k.wordId in s.catalog
  }

  /** The successful result of a get-or-insert: the record and the store it
      leaves behind. */
  datatype Got = Got(history: History, store: Store)

  const ForeignKeyViolation := "insert or update on table \"word_learning_histories\" violates foreign key constraint"

  /** Returns the stored row for (user, word) untouched, or creates, inserts
      and returns a fresh one; the insert fails when the word is not in the
      catalog. */
  function GetOrInsertHistory(s: Store, user: UserId, word: WordId): (r: Result<Got>)
    ensures Key(user, word) in s.rows ==>
      r == Ok(Got(s.rows[Key(user, word)], s))
    ensures Key(user, word) !in s.rows && word in s.catalog ==>
      && r.Ok?
      && r.value.history == Fresh(user, word)
      && r.value.store == s.(rows := s.rows[Key(user, word) := Fresh(user, word)])
    ensures r.Err? <==> Key(user, word) !in s.rows && word !in s.catalog
    ensures r.Ok? ==>
      && r.value.store.catalog == s.catalog
      && Key(user, word) in r.value.store.rows
      && r.value.store.rows[Key(user, word)] == r.value.history
      && r.value.store.rows.Keys == s.rows.Keys + {Key(user, word)}
      && (forall k :: k in s.rows && k != Key(user, word) ==> r.value.store.rows[k] == s.rows[k])
    ensures r.Ok? && KeysConsistent(s) ==> KeysConsistent(r.value.store)
    ensures r.Ok? && KeysConsistent(s) ==> KeyOf(r.value.history) == Key(user, word)
    ensures r.Ok? && RowsInCatalog(s) ==> RowsInCatalog(r.value.store)
  {
    var key := Key(user, word);
    if key in s.rows then Ok(Got(s.rows[key], s))
    else if word in s.catalog then
      var h := Fresh(user, word);
      Ok(Got(h, s.(rows := s.rows[key := h])))
    else Err(ForeignKeyViolation)
  }

  /** Saves a record under its key, replacing whatever row was there; the
      write fails when the word is not in the catalog. */
  function UpdateHistory(s: Store, h: History): (r: Result<Store>)
    ensures r.Err? <==> h.wordId !in s.catalog
    ensures r.Ok? ==>
      && r.value.catalog == s.catalog
      && KeyOf(h) in r.value.rows && r.value.rows[KeyOf(h)] == h
      && r.value.rows.Keys == s.rows.Keys + {KeyOf(h)}
      && (forall k :: k in s.rows && k != KeyOf(h) ==> r.value.rows[k] == s.rows[k])
    ensures r.Ok? && KeysConsistent(s) ==> KeysConsistent(r.value)
    ensures r.Ok? && RowsInCatalog(s) ==> RowsInCatalog(r.value)
  {
    if h.wordId in s.catalog then Ok(s.(rows := s.rows[KeyOf(h) := h]))
    else Err(ForeignKeyViolation)
  }

  /** Getting a pair twice in a row returns the same record and leaves the
      store as the first call left it. */
  lemma GetOrInsertIdempotent(s: Store, user: UserId, word: WordId)
    requires GetOrInsertHistory(s, user, word).Ok?
    ensures var g := GetOrInsertHistory(s, user, word).value;
      GetOrInsertHistory(g.store, user, word) == Ok(g)
  {
  }

  /** Saving the record a get returned leaves the store as the get left it. */
  lemma UpdateWithUnchangedRecord(s: Store, user: UserId, word: WordId)
    requires KeysConsistent(s) && RowsInCatalog(s)
    requires GetOrInsertHistory(s, user, word).Ok?
    ensures var g := GetOrInsertHistory(s, user, word).value;
      UpdateHistory(g.store, g.history) == Ok(g.store)
  {
    var g := GetOrInsertHistory(s, user, word).value;
    assert g.store.rows[KeyOf(g.history) := g.history] == g.store.rows;
  }
}
