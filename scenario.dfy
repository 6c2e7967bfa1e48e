/**
 * The decoded scenario input: a network of routers, subnets and links, and the
 * ordered list of communications (traffic intents) to realise on it.
 * Routers and subnets are addressed by their position in these lists.
 */
module Scenario {

  datatype Router = Router(id: int)

  datatype Subnet = Subnet(id: int, address: string, prefix: int)

  /** A router's interface on a subnet. */
  datatype Link = Link(routerId: int, interfaceId: string, ip: string, subnetId: int)

  datatype Network = Network(routers: seq<Router>, subnets: seq<Subnet>, links: seq<Link>)

  datatype Communication = Communication(
    sourceSubnetId: int,
    targetSubnetId: int,
    protocol: string,
    sourcePortStart: int,
    sourcePortEnd: int,
    targetPortStart: int,
    targetPortEnd: int,
    direction: string)

  datatype Input = Input(net: Network, communications: seq<Communication>)

  /** Every link names a router and a subnet that exist (positions in the lists). */
  predicate LinksInRange(net: Network) {
    forall k :: 0 <= k < |net.links| ==>
      0 <= net.links[k].routerId < |net.routers| && 0 <= net.links[k].subnetId < |net.subnets|
  }
}
