/**
 * The transaction service's routes over its in-memory list of
 * transactions. Both routes run behind the header guard; when the guard
 * refuses, the handler body does not run.
 */
module TransactionRoutes {
  import opened Http
  import TransactionDependencies

  /** A transaction record, kept opaque: its fields are name to value. */
  datatype Transaction = Transaction(fields: map<string, string>)

  /** The module-level `transactions_db` list. */
  class TransactionStore {
    var transactions: seq<Transaction>

    constructor (initial: seq<Transaction>)
      ensures transactions == initial
    {
      transactions := initial;
    }

    /**
     * `POST /transactions/`. An authorised request appends the given
     * transaction once, at the end, and echoes it back; every earlier
     * record stays where it was. A refused request changes nothing. The
     * stored record is the same whoever the caller turned out to be.
     */
    method CreateTransaction(decode: string -> Option<Claims>, authorization: string, tx: Transaction)
      returns (r: Result<Transaction>)
      modifies this
      ensures r.Ok? <==> TransactionDependencies.GetCurrentUser(decode, authorization).Ok?
      ensures r.Ok? ==> r.value == tx && transactions == old(transactions) + [tx]
      ensures r.Ok? ==> |transactions| == |old(transactions)| + 1 &&
                        forall i :: 0 <= i < |old(transactions)| ==> transactions[i] == old(transactions)[i]
      ensures r.Err? ==> r.error == InvalidToken && transactions == old(transactions)
    {
      var user := TransactionDependencies.GetCurrentUser(decode, authorization);
      if user.Err? {
        return Err(user.error);
      }
      transactions := transactions + [tx];
      return Ok(tx);
    }

    /** `GET /transactions/`: the stored list as it is, for an authorised caller. */
    method ListTransactions(decode: string -> Option<Claims>, authorization: string)
      returns (r: Result<seq<Transaction>>)
      ensures r.Ok? <==> TransactionDependencies.GetCurrentUser(decode, authorization).Ok?
      ensures r.Ok? ==> r.value == transactions
      ensures r.Err? ==> r.error == InvalidToken
    {
      var user := TransactionDependencies.GetCurrentUser(decode, authorization);
      if user.Err? {
        return Err(user.error);
      }
      return Ok(transactions);
    }
  }
}
