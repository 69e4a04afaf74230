/** The single-server queue (src/base/AbstractQueue.cc, src/base/QueueBase.cc): departure times
    over any run of arrivals and end-of-service timers. */
module Queueing {
  import opened Options

  // A packet with the service time that startService answers for it.
  datatype Job = Job(packet: nat, arrival: real, service: real)
  datatype Departure = Departure(packet: nat, time: real)

  function Later(a: real, b: real): real {
    if a >= b then a else b
  }

  // When the server takes up job n: once it has arrived and its predecessor has left.
  function BeginAt(jobs: seq<Job>, n: nat): real
    requires n < |jobs|
    decreases n, 0
  {
    if n == 0 then jobs[n].arrival else Later(jobs[n].arrival, LeaveAt(jobs, n - 1))
  }

  function LeaveAt(jobs: seq<Job>, n: nat): real
    requires n < |jobs|
    decreases n, 1
  {
    BeginAt(jobs, n) + jobs[n].service
  }

  lemma {:induction false} LeaveAtPrefix(jobs: seq<Job>, j: Job, n: nat)
    requires n < |jobs|
    ensures LeaveAt(jobs + [j], n) == LeaveAt(jobs, n)
    ensures BeginAt(jobs + [j], n) == BeginAt(jobs, n)
  {
    if n > 0 { LeaveAtPrefix(jobs, j, n - 1); }
  }

  // The service times of jobs j..n.
  function Work(jobs: seq<Job>, j: nat, n: nat): real
    requires j <= n < |jobs|
    decreases n
  {
    jobs[n].service + if j == n then 0.0 else Work(jobs, j, n - 1)
  }

  // The departure times without recursion on departures: the busy period that ends with job n began with
  // the arrival of the job for which arrival plus work up to n is largest.
  lemma {:induction false} LeaveAtIsLargestBusyPeriod(jobs: seq<Job>, n: nat) returns (first: nat)
    requires n < |jobs|
    ensures first <= n && LeaveAt(jobs, n) == jobs[first].arrival + Work(jobs, first, n)
    ensures forall j :: 0 <= j <= n ==> jobs[j].arrival + Work(jobs, j, n) <= LeaveAt(jobs, n)
  {
    first := n;
    if n > 0 {
      var f := LeaveAtIsLargestBusyPeriod(jobs, n - 1);
      if LeaveAt(jobs, n - 1) > jobs[n].arrival {
        first := f;
      }
      forall j | 0 <= j <= n ensures jobs[j].arrival + Work(jobs, j, n) <= LeaveAt(jobs, n) {
        if j < n {
          assert jobs[j].arrival + Work(jobs, j, n - 1) <= LeaveAt(jobs, n - 1);
        }
      }
    }
  }

  ghost predicate ServiceOk(jobs: seq<Job>) {
    forall i :: 0 <= i < |jobs| ==> jobs[i].service >= 0.0
  }

  // Packets never overtake each other.
  lemma {:induction false} LeaveInOrder(jobs: seq<Job>, i: nat, n: nat)
    requires i <= n < |jobs| && ServiceOk(jobs)
    ensures LeaveAt(jobs, i) <= LeaveAt(jobs, n)
    decreases n
  {
    if i < n { LeaveInOrder(jobs, i, n - 1); }
  }

  class SingleServerQueue {
    var serviced: Option<Job>
    var timer: Option<real>
    var queue: seq<Job>
    var departures: seq<Departure>
    var now: real
    ghost var jobs: seq<Job>

    // The first |departures| jobs have left, each at its time, in order of arrival.
    ghost predicate Left()
      reads this
    {
      && ServiceOk(jobs) && (forall i :: 0 <= i < |jobs| ==> jobs[i].arrival <= now)
      && |departures| <= |jobs|
      && (forall i :: 0 <= i < |departures| ==> departures[i] == Departure(jobs[i].packet, LeaveAt(jobs, i)))
      && (forall i :: 0 <= i < |departures| ==> departures[i].time <= now)
    }

    // Between events: the timer runs exactly while a packet is in service, for its departure time,
    // and an idle server has an empty queue.
    ghost predicate Valid()
      reads this
    {
      && Left()
      && match serviced
         case None => timer == None && queue == [] && |departures| == |jobs|
         case Some(j) =>
           && Serving(j)
           && timer == Some(LeaveAt(jobs, |departures|)) && now <= timer.value
    }

    ghost predicate Serving(j: Job)
      reads this
    {
      && |departures| < |jobs| && j == jobs[|departures|] && queue == jobs[|departures| + 1..]
    }

    constructor ()
      ensures Valid() && jobs == [] && departures == [] && now == 0.0
    {
      serviced, timer, queue, departures, now, jobs := None, None, [], [], 0.0, [];
    }

    // startService, then the timer, or the end of service at once when the service time is zero.
    method DoStartService()
      requires Left() && serviced.Some? && Serving(serviced.value) && timer == None
      requires now == BeginAt(jobs, |departures|)
      modifies this`serviced, this`timer, this`queue, this`departures
      ensures Valid() && old(departures) <= departures
      decreases |queue|, 1
    {
      var serviceTime := serviced.value.service;
      if serviceTime != 0.0 {
        timer := Some(now + serviceTime);
      } else {
        DoEndService();
      }
    }

    method DoEndService()
      requires Left() && serviced.Some? && Serving(serviced.value) && timer == None
      requires now == LeaveAt(jobs, |departures|)
      modifies this`serviced, this`timer, this`queue, this`departures
      ensures Valid() && old(departures) < departures
      decreases |queue|, 0
    {
      departures := departures + [Departure(serviced.value.packet, now)];
      if queue == [] {
        serviced := None;
      } else {
        serviced, queue := Some(queue[0]), queue[1..];
        DoStartService();
      }
    }

    // A packet arrives; the simulator delivers events in time order.
    method HandleArrival(job: Job)
      requires Valid() && job.service >= 0.0
      requires now <= job.arrival && (timer.Some? ==> job.arrival <= timer.value)
      modifies this
      ensures Valid() && jobs == old(jobs) + [job] && now == job.arrival && old(departures) <= departures
    {
      now, jobs := job.arrival, jobs + [job];
      forall i: nat | i < |jobs| - 1
        ensures LeaveAt(jobs, i) == LeaveAt(old(jobs), i) && BeginAt(jobs, i) == BeginAt(old(jobs), i)
      {
        LeaveAtPrefix(old(jobs), job, i);
      }
      if serviced.None? {
        assert |jobs| > 1 ==> departures[|jobs| - 2].time <= old(now);
        serviced := Some(job);
        DoStartService();
      } else {
        queue := queue + [job];
      }
    }

    // The timer fires; the packet in service leaves at its time.
    method HandleEndService()
      requires Valid() && timer.Some?
      modifies this
      ensures Valid() && jobs == old(jobs) && now == old(timer).value && old(departures) < departures
    {
      now, timer := timer.value, None;
      DoEndService();
    }
  }
}
