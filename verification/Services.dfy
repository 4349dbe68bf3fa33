/** The services of a cluster in the order in which they start, and the threads of the program. */
module Services {

  datatype Service = Etcd | ApiServer | ControllerManager | Scheduler | Kubelet | KubeProxy

  const ORDER := [Etcd, ApiServer, ControllerManager, Scheduler, Kubelet, KubeProxy]

  /** The threads that can end the program by calling Fatal. */
  datatype Thread =
    | MainThread
    | Waiter(svc: Service)    // waits for the process of a service and runs its exit handler
    | Checker(svc: Service)   // checkService
    | Drainer                 // waits for a signal and drains the node

  /** The position of a service in the order of starting, which is the order of stopping. */
  function Rank(svc: Service): (r: nat)
    ensures r < |ORDER| && ORDER[r] == svc
  {
    match svc
    case Etcd => 0
    case ApiServer => 1
    case ControllerManager => 2
    case Scheduler => 3
    case Kubelet => 4
    case KubeProxy => 5
  }

  lemma RankOf(k: nat)
    requires k < |ORDER|
    ensures Rank(ORDER[k]) == k
  {
    assert k == 0 || k == 1 || k == 2 || k == 3 || k == 4 || k == 5;
  }
}
