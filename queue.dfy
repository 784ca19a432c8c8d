/** The message broker behind Celery's `.delay()`: a queue of submitted
    (job id, records) messages. Whether a publish succeeds is a parameter. */
module Queue {
  import opened Domain

  /** What one `.delay()` call does: the message is accepted, the broker
      connection fails (kombu's OperationalError), or some other exception
      is raised. */
  datatype EnqueueOutcome = Enqueued | BrokerUnavailable(error: string) | EnqueueRaised(error: string)

  datatype Message = Message(jobId: string, hospitals: seq<HospitalRecord>)

  class TaskQueue {
    var pending: seq<Message>

    constructor ()
      ensures pending == []
    {
      pending := [];
    }

    /** Publish one message; nothing is queued when publishing fails. */
    method Delay(jobId: string, hospitals: seq<HospitalRecord>, outcome: EnqueueOutcome)
      modifies this
      ensures outcome.Enqueued? ==> pending == old(pending) + [Message(jobId, hospitals)]
      ensures !outcome.Enqueued? ==> pending == old(pending)
    {
      if outcome.Enqueued? {
        pending := pending + [Message(jobId, hospitals)];
      }
    }
  }
}
